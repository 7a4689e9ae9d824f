/** The remote state manager of `internal/cloud/state.go`: a snapshot in memory, the snapshot last read or
    stored, and a server whose every call may fail.

    Each operation is a function from the manager and the server to what becomes of them; failures of the
    server, of encoding and the generated lineage are parameters. The laws are about whole runs of
    operations. The classes at the end perform the operations in place.
 */
module CloudState {
  import opened Addrs

  const TWO_63 := 0x8000_0000_0000_0000
  const TWO_64 := 0x1_0000_0000_0000_0000

  type UInt64 = x: int | 0 <= x < TWO_64

  /** A state snapshot; `content` stands for the resources and outputs. */
  datatype Snapshot = Snapshot(lineage: string, serial: UInt64, content: string)

  datatype Upload = Upload(snapshot: Snapshot, wireSerial: Int64, force: bool)

  /** `unlocks` counts the unlock and force-unlock requests that reached the server. */
  datatype Server = Server(current: Option<Snapshot>, uploads: seq<Upload>, unlocks: nat)

  datatype Manager = Manager(
    lineage: string, readLineage: string,
    serial: UInt64, readSerial: UInt64,
    content: string, readContent: Option<string>,
    uploadErr: bool, forcePush: bool,
    lockID: Option<string>, disableLocks: bool, forceUnlockID: string)

  datatype World = World(m: Manager, sv: Server)

  /** What can go wrong while persisting, and the lineage that is generated if one is needed. */
  datatype PersistEnv = PersistEnv(readFails: bool, newLineage: Option<string>, encodeFails: bool, reply: Reply)

  /** How an upload ends: stored and confirmed, not stored, or stored with the confirmation lost on its way. */
  datatype Reply = Accepted | Refused | Lost

  // ---------------------------------------------------------------- operations

  /** Incrementing a 64-bit counter. */
  function Next(serial: UInt64): UInt64 {
    if serial == TWO_64 - 1 then 0 else serial + 1
  }

  /** The serial as the API carries it, reinterpreted as a signed number. */
  function Wire(serial: UInt64): Int64 {
    if serial < TWO_63 then serial else serial - TWO_64
  }

  function WriteState(w: World, content: string): World {
    w.(m := w.m.(content := content, forcePush := false))
  }

  /** Reads the current snapshot; with none on the server the manager forgets lineage and serial. */
  function RefreshState(w: World, readFails: bool): (World, bool) {
    if readFails then (w, false) else
    match w.sv.current
    case None => (w.(m := w.m.(readContent := None, lineage := "", serial := 0)), true)
    case Some(f) =>
      (w.(m := w.m.(lineage := f.lineage, serial := f.serial, content := f.content,
                    readLineage := f.lineage, readSerial := f.serial, readContent := Some(f.content))), true)
  }

  predicate Unchanged(m: Manager) {
    && m.readContent == Some(m.content)
    && m.readLineage != "" && m.lineage == m.readLineage
    && m.readSerial != 0 && m.serial == m.readSerial
  }

  /** Encodes and uploads the snapshot in memory under the current lineage and serial. */
  function UploadSnapshot(w: World, env: PersistEnv): (World, bool) {
    if env.encodeFails then (w, false)
    else if env.reply == Refused then (w.(m := w.m.(uploadErr := true)), false)
    else
      var f := Snapshot(w.m.lineage, w.m.serial, w.m.content);
      var sv := w.sv.(current := Some(f), uploads := w.sv.uploads + [Upload(f, Wire(f.serial), w.m.forcePush)]);
      if env.reply == Lost then (World(w.m.(uploadErr := true), sv), false)
      else (World(w.m.(readContent := Some(f.content), readLineage := f.lineage, readSerial := f.serial), sv), true)
  }

  function PersistState(w: World, env: PersistEnv): (World, bool) {
    if w.m.readContent.Some? then
      if Unchanged(w.m) then (w, true)
      else UploadSnapshot(w.(m := w.m.(serial := Next(w.m.serial))), env)
    else
      var (w1, ok) := RefreshState(w, env.readFails);
      if !ok then (w1, false)
      else if w1.m.lineage == "" then
        match env.newLineage
        case None => (w1, false)
        case Some(lineage) =>
          UploadSnapshot(w1.(m := w1.m.(lineage := lineage, serial := Next(w1.m.serial))), env)
      else UploadSnapshot(w1, env)
  }

  function Lock(w: World, id: string, serverFails: bool): World {
    if w.m.disableLocks || serverFails then w else w.(m := w.m.(lockID := Some(id)))
  }

  /** After a failed upload the workspace stays locked: no request is made. */
  function Unlock(w: World, id: string): World {
    if w.m.disableLocks || w.m.uploadErr then w
    else
      match w.m.lockID
      case Some(lockID) => if lockID != id then w else w.(sv := w.sv.(unlocks := w.sv.unlocks + 1))
      case None => if w.m.forceUnlockID != id then w else w.(sv := w.sv.(unlocks := w.sv.unlocks + 1))
  }

  datatype Op =
    | DoWrite(content: string)
    | DoPersist(env: PersistEnv)
    | DoRefresh(readFails: bool)
    | DoLock(id: string, serverFails: bool)
    | DoUnlock(unlockID: string)

  function Do(w: World, op: Op): World {
    match op
    case DoWrite(content) => WriteState(w, content)
    case DoPersist(env) => PersistState(w, env).0
    case DoRefresh(readFails) => RefreshState(w, readFails).0
    case DoLock(id, serverFails) => Lock(w, id, serverFails)
    case DoUnlock(id) => Unlock(w, id)
  }

  function Run(w: World, ops: seq<Op>): World {
    if ops == [] then w else Do(Run(w, ops[..|ops| - 1]), ops[|ops| - 1])
  }

  // ---------------------------------------------------------------- serials under one lineage

  /** The manager has just read or stored what the server has. */
  predicate Synced(w: World) {
    && w.m.readContent == Some(w.m.content) && w.m.lineage == w.m.readLineage && w.m.serial == w.m.readSerial
    && w.sv.current == Some(Snapshot(w.m.lineage, w.m.serial, w.m.content))
  }

  /** The server holds what the manager remembers having read or stored. */
  predicate Remembered(w: World) {
    w.m.readContent.Some? && w.sv.current == Some(Snapshot(w.m.readLineage, w.m.readSerial, w.m.readContent.value))
  }

  /** The server holds something of the manager's lineage, and what the manager remembers unless an upload has
      failed. */
  predicate Tracked(w: World) {
    && w.m.readContent.Some? && w.m.lineage == w.m.readLineage
    && w.sv.current.Some? && w.sv.current.value.lineage == w.m.lineage
    && (Remembered(w) || w.m.uploadErr)
  }

  /** The server is at or behind the serial in memory, and ahead of what the manager remembers only if the
      serial in memory is as well. */
  predicate InOrder(w: World) {
    && w.sv.current.Some? && w.m.readSerial <= w.sv.current.value.serial <= w.m.serial
    && (Remembered(w) || w.m.readSerial < w.m.serial)
  }

  /** Reading an existing snapshot syncs the manager, and so does a successful first persist. */
  lemma ReadOrStoredIsSynced(w: World, env: PersistEnv)
    ensures w.sv.current.Some? ==> RefreshState(w, false).1 && Synced(RefreshState(w, false).0)
    ensures w.m.readContent == None && PersistState(w, env).1 ==> Synced(PersistState(w, env).0)
  {
  }

  /** A serial grows by incrementing, except where the counter or its signed reading wraps around. */
  lemma SerialGrows(serial: UInt64)
    ensures serial < Next(serial) <==> serial != TWO_64 - 1
    ensures Wire(serial) < Wire(Next(serial)) <==> serial != TWO_63 - 1
  {
  }

  /** The uploads made since a point are all under one lineage, each with its serial as the API carries it. */
  predicate OneLineage(uploads: seq<Upload>, start: nat, lineage: string)
    requires start <= |uploads|
  {
    forall i | start <= i < |uploads| ::
      uploads[i].snapshot.lineage == lineage && uploads[i].wireSerial == Wire(uploads[i].snapshot.serial)
  }

  /** The uploads made since a point have serials growing from `floor` to `roof`. */
  predicate GrowingUploads(uploads: seq<Upload>, start: nat, floor: int, roof: int)
    requires start <= |uploads|
  {
    && (forall i | start <= i < |uploads| :: floor < uploads[i].snapshot.serial <= roof)
    && (forall i, j | start <= i < j < |uploads| :: uploads[i].snapshot.serial < uploads[j].snapshot.serial)
  }

  /** How many of the operations are persists. */
  function Persists(ops: seq<Op>): nat {
    if ops == [] then 0 else Persists(ops[..|ops| - 1]) + if ops[|ops| - 1].DoPersist? then 1 else 0
  }

  predicate NoRefresh(ops: seq<Op>) {
    forall i | 0 <= i < |ops| :: !ops[i].DoRefresh?
  }

  lemma PersistTracks(w: World, env: PersistEnv, start: nat)
    requires Tracked(w) && start <= |w.sv.uploads| && OneLineage(w.sv.uploads, start, w.m.lineage)
    ensures var after := PersistState(w, env).0;
            && Tracked(after) && after.m.lineage == w.m.lineage
            && start <= |after.sv.uploads| && OneLineage(after.sv.uploads, start, w.m.lineage)
  {
    var after := PersistState(w, env).0;
    if |after.sv.uploads| > |w.sv.uploads| {
      assert after.sv.uploads[..|w.sv.uploads|] == w.sv.uploads;
    }
  }

  /** Once a snapshot has been read or stored, over every run of writes, persists, locks and unlocks, of any
      length and with failures anywhere: every upload carries the one lineage, the server stays on it, and as
      long as no upload has failed the server holds what the manager remembers. */
  lemma {:induction false} LineageIsKept(w: World, ops: seq<Op>)
    requires Synced(w) && NoRefresh(ops)
    ensures var after := Run(w, ops);
            && Tracked(after) && after.m.lineage == w.m.lineage
            && |w.sv.uploads| <= |after.sv.uploads|
            && OneLineage(after.sv.uploads, |w.sv.uploads|, w.m.lineage)
  {
    if ops != [] {
      var init, op := ops[..|ops| - 1], ops[|ops| - 1];
      assert !op.DoRefresh?;
      LineageIsKept(w, init);
      if op.DoPersist? {
        PersistTracks(Run(w, init), op.env, |w.sv.uploads|);
      }
    }
  }

  lemma PersistGrows(w: World, env: PersistEnv, start: nat, floor: int)
    requires Tracked(w) && w.m.serial < TWO_64 - 1 && start <= |w.sv.uploads|
    requires GrowingUploads(w.sv.uploads, start, floor, w.m.serial) && floor <= w.m.serial && InOrder(w)
    ensures var after := PersistState(w, env).0;
            && w.m.serial <= after.m.serial <= w.m.serial + 1 && InOrder(after)
            && start <= |after.sv.uploads|
            && GrowingUploads(after.sv.uploads, start, floor, after.m.serial)
  {
    var after := PersistState(w, env).0;
    if |after.sv.uploads| > |w.sv.uploads| {
      assert after.sv.uploads[..|w.sv.uploads|] == w.sv.uploads;
    }
  }

  /** Over such a run serials strictly increase from the one known at the start, as long as its persists do not
      carry the counter to its end. */
  lemma {:induction false} SerialsIncrease(w: World, ops: seq<Op>)
    requires Synced(w) && NoRefresh(ops) && w.m.serial + Persists(ops) < TWO_64
    ensures var after := Run(w, ops);
            && w.m.serial <= after.m.serial <= w.m.serial + Persists(ops) && InOrder(after)
            && |w.sv.uploads| <= |after.sv.uploads|
            && GrowingUploads(after.sv.uploads, |w.sv.uploads|, w.m.serial, after.m.serial)
  {
    if ops != [] {
      var init, op := ops[..|ops| - 1], ops[|ops| - 1];
      assert !op.DoRefresh?;
      SerialsIncrease(w, init);
      LineageIsKept(w, init);
      if op.DoPersist? {
        PersistGrows(Run(w, init), op.env, |w.sv.uploads|, w.m.serial);
      }
    }
  }

  /** The serials the API carries strictly increase as well, if the counter stays in the signed range. */
  lemma WireSerialsIncrease(w: World, ops: seq<Op>)
    requires Synced(w) && NoRefresh(ops) && w.m.serial + Persists(ops) < TWO_63
    ensures var uploads := Run(w, ops).sv.uploads;
            && |w.sv.uploads| <= |uploads|
            && (forall i | |w.sv.uploads| <= i < |uploads| ::
               Wire(w.m.serial) < uploads[i].wireSerial == uploads[i].snapshot.serial)
            && (forall i, j | |w.sv.uploads| <= i < j < |uploads| :: uploads[i].wireSerial < uploads[j].wireSerial)
  {
    LineageIsKept(w, ops);
    SerialsIncrease(w, ops);
  }

  // ---------------------------------------------------------------- what a persist achieves

  /** A successful persist leaves the server with exactly the snapshot in memory, and the manager synced. */
  lemma PersistStores(w: World, env: PersistEnv)
    requires Tracked(w) && (Remembered(w) || w.m.readSerial != w.m.serial) && PersistState(w, env).1
    ensures var after := PersistState(w, env).0;
            Synced(after) && after.m.content == w.m.content && after.m.lineage == w.m.lineage
  {
  }

  /** So after any run that starts in agreement, whatever failed on the way, a persist that succeeds stores the
      snapshot in memory. */
  lemma PersistStoresAfterRun(w: World, ops: seq<Op>, env: PersistEnv)
    requires Synced(w) && NoRefresh(ops) && w.m.serial + Persists(ops) < TWO_64 && PersistState(Run(w, ops), env).1
    ensures var after := PersistState(Run(w, ops), env).0;
            Synced(after) && after.m.content == Run(w, ops).m.content && after.m.lineage == w.m.lineage
  {
    LineageIsKept(w, ops);
    SerialsIncrease(w, ops);
    PersistStores(Run(w, ops), env);
  }

  /** The content written last, or the initial one if nothing was written. */
  function LastWritten(initial: string, ops: seq<Op>): string {
    if ops == [] then initial
    else if ops[|ops| - 1].DoWrite? then ops[|ops| - 1].content
    else LastWritten(initial, ops[..|ops| - 1])
  }

  /** Once a snapshot has been read or stored, the content in memory is what was written last, whatever else is
      done without refreshing. */
  lemma {:induction false} MemoryHoldsLastWrite(w: World, ops: seq<Op>)
    requires w.m.readContent.Some? && NoRefresh(ops)
    ensures Run(w, ops).m.readContent.Some? && Run(w, ops).m.content == LastWritten(w.m.content, ops)
  {
    if ops != [] {
      var init, op := ops[..|ops| - 1], ops[|ops| - 1];
      assert !op.DoRefresh?;
      MemoryHoldsLastWrite(w, init);
      if op.DoPersist? {
        PersistKeepsMemory(Run(w, init), op.env);
      }
    }
  }

  lemma PersistKeepsMemory(w: World, env: PersistEnv)
    requires w.m.readContent.Some?
    ensures PersistState(w, env).0.m.readContent.Some? && PersistState(w, env).0.m.content == w.m.content
  {
  }

  /** So a persist that succeeds after such a run leaves the server with what was written last. */
  lemma LastWriteIsStored(w: World, ops: seq<Op>, env: PersistEnv)
    requires Synced(w) && NoRefresh(ops) && w.m.serial + Persists(ops) < TWO_64 && PersistState(Run(w, ops), env).1
    ensures var current := PersistState(Run(w, ops), env).0.sv.current;
            && current.Some? && current.value.lineage == w.m.lineage
            && current.value.content == LastWritten(w.m.content, ops)
  {
    MemoryHoldsLastWrite(w, ops);
    PersistStoresAfterRun(w, ops, env);
  }

  /** A persist right after a write of different content makes one upload, of that content under the same lineage and
      the next serial, and not a forced one. It succeeds if the server confirms. */
  lemma WriteIsUploaded(w: World, content: string, env: PersistEnv)
    requires Synced(w) && content != w.m.content && !env.encodeFails && env.reply != Refused
    ensures var (after, ok) := PersistState(WriteState(w, content), env);
            && ok == (env.reply == Accepted)
            && after.sv.current == Some(Snapshot(w.m.lineage, Next(w.m.serial), content))
            && after.sv.uploads == w.sv.uploads + [Upload(after.sv.current.value, Wire(Next(w.m.serial)), false)]
  {
  }

  /** A persist to a server without a snapshot creates one with the content in memory, the generated lineage and
      the serial 1. */
  lemma FirstUpload(w: World, env: PersistEnv)
    requires w.m.readContent == None && w.sv.current == None && PersistState(w, env).1
    ensures var after := PersistState(w, env).0;
            && env.newLineage.Some?
            && after.sv.current == Some(Snapshot(env.newLineage.value, 1, w.m.content))
            && after.sv.uploads == w.sv.uploads + [Upload(after.sv.current.value, 1, w.m.forcePush)]
  {
  }

  /** A write takes back a request to force uploads, and nothing else makes one: no upload that follows is forced. */
  lemma {:induction false} UploadsAreNotForced(w: World, ops: seq<Op>)
    requires !w.m.forcePush
    ensures !Run(w, ops).m.forcePush && |w.sv.uploads| <= |Run(w, ops).sv.uploads|
    ensures forall i | |w.sv.uploads| <= i < |Run(w, ops).sv.uploads| :: !Run(w, ops).sv.uploads[i].force
  {
    if ops != [] {
      UploadsAreNotForced(w, ops[..|ops| - 1]);
      StepIsNotForced(Run(w, ops[..|ops| - 1]), ops[|ops| - 1]);
    }
  }

  lemma StepIsNotForced(w: World, op: Op)
    requires !w.m.forcePush
    ensures var after := Do(w, op);
            && !after.m.forcePush && w.sv.uploads <= after.sv.uploads
            && forall i | |w.sv.uploads| <= i < |after.sv.uploads| :: !after.sv.uploads[i].force
  {
    if op.DoPersist? {
      PersistIsNotForced(w, op.env);
    }
  }

  lemma PersistIsNotForced(w: World, env: PersistEnv)
    requires !w.m.forcePush
    ensures var after := PersistState(w, env).0;
            && !after.m.forcePush
            && (after.sv.uploads == w.sv.uploads ||
                exists f, serial :: after.sv.uploads == w.sv.uploads + [Upload(f, serial, false)])
  {
  }

  /** Persisting again right away uploads nothing and changes nothing, exactly when the lineage is not empty
      and the serial is not zero. */
  lemma SecondPersistIsIdle(w: World)
    requires Synced(w)
    ensures (forall env :: PersistState(w, env) == (w, true)) <==> w.m.lineage != "" && w.m.serial != 0
  {
    if w.m.lineage == "" || w.m.serial == 0 {
      var env := PersistEnv(false, None, true, Accepted);
      assert PersistState(w, env) != (w, true);
    }
  }

  /** A successful first persist, when nothing was read before, stores the pending write if and only if the
      server has no snapshot or one with that very content. A snapshot on the server has its content
      uploaded again: as it was if it has a lineage, and otherwise under a new lineage and the next serial. */
  lemma FirstPersistDropsWrite(w: World, env: PersistEnv)
    requires w.m.readContent == None && PersistState(w, env).1
    ensures var after := PersistState(w, env).0;
            && after.sv.current.Some? && |after.sv.uploads| == |w.sv.uploads| + 1
            && (after.sv.current.value.content == w.m.content <==>
                w.sv.current.None? || w.sv.current.value.content == w.m.content)
            && after.m.content == after.sv.current.value.content
            && (w.sv.current.Some? ==>
                  && after.sv.current.value.content == w.sv.current.value.content
                  && (w.sv.current.value.lineage != "" ==> after.sv.current == w.sv.current)
                  && (w.sv.current.value.lineage == "" ==>
                        && Some(after.sv.current.value.lineage) == env.newLineage
                        && after.sv.current.value.serial == Next(w.sv.current.value.serial)))
  {
  }

  /** A pending write can be dropped whether or not the snapshot on the server has a lineage. */
  lemma DroppedWrite(m: Manager, lineage: string)
    requires m.readContent == None && m.content != "old"
    ensures var w := World(m, Server(Some(Snapshot(lineage, 3, "old")), [], 0));
            var (after, ok) := PersistState(w, PersistEnv(false, Some("new"), false, Accepted));
            && ok && after.sv.current.Some? && after.sv.current.value.content == "old"
            && after.sv.current.value.serial == if lineage == "" then 4 else 3
  {
  }

  // ---------------------------------------------------------------- locks after a failed upload

  lemma StepKeepsError(w: World, op: Op)
    requires w.m.uploadErr
    ensures Do(w, op).m.uploadErr && Do(w, op).sv.unlocks == w.sv.unlocks
  {
  }

  /** After a failed upload no later unlock reaches the server, whatever else is done. */
  lemma {:induction false} NoUnlockAfterFailedUpload(w: World, ops: seq<Op>)
    requires w.m.uploadErr
    ensures Run(w, ops).m.uploadErr && Run(w, ops).sv.unlocks == w.sv.unlocks
  {
    if ops != [] {
      NoUnlockAfterFailedUpload(w, ops[..|ops| - 1]);
      StepKeepsError(Run(w, ops[..|ops| - 1]), ops[|ops| - 1]);
    }
  }

  /** A persist that fails at the upload is what sets that condition; failing earlier does not. */
  lemma FailedUploadIsRemembered(w: World, env: PersistEnv)
    ensures PersistState(w, env).0.m.uploadErr <==>
            w.m.uploadErr || (!PersistState(w, env).1 && !env.encodeFails && env.reply != Accepted &&
                              (w.m.readContent.Some? ||
                                (!env.readFails && (env.newLineage.Some? || NamedRemote(w.sv)))))
  {
  }

  predicate NamedRemote(sv: Server) {
    sv.current.Some? && sv.current.value.lineage != ""
  }

  /** An unlock reaches the server exactly when locking is on, no upload has failed, and the identifier is
      the one of the lock held or, with no lock held, the one that forces unlocking. */
  lemma UnlockReaches(w: World, id: string)
    ensures Unlock(w, id).sv.unlocks == w.sv.unlocks + 1 <==>
            && !w.m.disableLocks && !w.m.uploadErr
            && id == if w.m.lockID.Some? then w.m.lockID.value else w.m.forceUnlockID
    ensures Unlock(w, id) == w || Unlock(w, id) == w.(sv := w.sv.(unlocks := w.sv.unlocks + 1))
  {
  }

  /** A lock that the server grants can be released with its own identifier and no other; one that is not granted
      leaves everything as it was. */
  lemma LockedCanBeUnlocked(w: World, id: string, other: string)
    requires !w.m.disableLocks && !w.m.uploadErr
    ensures Unlock(Lock(w, id, false), id).sv.unlocks == w.sv.unlocks + 1
    ensures other != id ==> Unlock(Lock(w, id, false), other).sv.unlocks == w.sv.unlocks
    ensures Lock(w, id, true) == w
  {
  }

  // ---------------------------------------------------------------- the manager as an object

  class RemoteServer {
    var current: Option<Snapshot>
    var uploads: seq<Upload>
    var unlocks: nat

    constructor (current: Option<Snapshot>)
      ensures this.current == current && uploads == [] && unlocks == 0
    {
      this.current := current;
      uploads, unlocks := [], 0;
    }

    ghost function Model(): Server
      reads this
    {
      Server(current, uploads, unlocks)
    }
  }

  class StateManager {
    var lineage: string
    var readLineage: string
    var serial: UInt64
    var readSerial: UInt64
    var content: string
    var readContent: Option<string>
    var uploadErr: bool
    var forcePush: bool
    var lockID: Option<string>
    const disableLocks: bool
    const forceUnlockID: string
    const server: RemoteServer

    constructor (server: RemoteServer, disableLocks: bool, forceUnlockID: string)
      ensures this.server == server && uploadErr == false && readContent == None && lockID == None
      ensures this.disableLocks == disableLocks && this.forceUnlockID == forceUnlockID
    {
      this.server, this.disableLocks, this.forceUnlockID := server, disableLocks, forceUnlockID;
      lineage, readLineage, serial, readSerial := "", "", 0, 0;
      content, readContent := "", None;
      uploadErr, forcePush, lockID := false, false, None;
    }

    ghost function Model(): World
      reads this, server
    {
      World(Manager(lineage, readLineage, serial, readSerial, content, readContent,
                    uploadErr, forcePush, lockID, disableLocks, forceUnlockID),
            server.Model())
    }

    method Write(state: string)
      modifies this
      ensures Model() == WriteState(old(Model()), state)
    {
      content := state;
      forcePush := false;
    }

    method Refresh(readFails: bool) returns (ok: bool)
      modifies this
      ensures (Model(), ok) == RefreshState(old(Model()), readFails)
    {
      if readFails {
        return false;
      }
      if server.current == None {
        readContent := None;
        lineage := "";
        serial := 0;
        return true;
      }
      var f := server.current.value;
      lineage := f.lineage;
      serial := f.serial;
      content := f.content;
      readLineage := f.lineage;
      readSerial := f.serial;
      readContent := Some(content);
      return true;
    }

    method NothingChanged() returns (same: bool)
      requires readContent.Some?
      ensures same == Unchanged(Model().m)
    {
      var lineageUnchanged := readLineage != "" && lineage == readLineage;
      var serialUnchanged := readSerial != 0 && serial == readSerial;
      var stateUnchanged := content == readContent.value;
      return stateUnchanged && lineageUnchanged && serialUnchanged;
    }

    method Persist(env: PersistEnv) returns (ok: bool)
      modifies this, server
      ensures (Model(), ok) == PersistState(old(Model()), env)
    {
      if readContent.Some? {
        var same := NothingChanged();
        if same {
          return true;
        }
        serial := Next(serial);
      } else {
        var refreshed := Refresh(env.readFails);
        if !refreshed {
          return false;
        }
        if lineage == "" {
          if env.newLineage == None {
            return false;
          }
          lineage := env.newLineage.value;
          serial := Next(serial);
        }
      }
      ok := UploadCurrent(env);
    }

    method UploadCurrent(env: PersistEnv) returns (ok: bool)
      modifies this, server
      ensures (Model(), ok) == UploadSnapshot(old(Model()), env)
    {
      if env.encodeFails {
        return false;
      }
      if env.reply == Refused {
        uploadErr := true;
        return false;
      }
      var f := Snapshot(lineage, serial, content);
      server.current := Some(f);
      server.uploads := server.uploads + [Upload(f, Wire(serial), forcePush)];
      if env.reply == Lost {
        uploadErr := true;
        return false;
      }
      readContent := Some(content);
      readLineage := lineage;
      readSerial := serial;
      return true;
    }

    method TakeLock(id: string, serverFails: bool)
      modifies this
      ensures Model() == Lock(old(Model()), id, serverFails)
    {
      if disableLocks || serverFails {
        return;
      }
      lockID := Some(id);
    }

    method ReleaseLock(id: string)
      modifies server
      ensures Model() == Unlock(old(Model()), id)
    {
      if disableLocks {
        return;
      }
      if uploadErr {
        return;
      }
      if lockID.Some? {
        if lockID.value != id {
          return;
        }
        server.unlocks := server.unlocks + 1;
        return;
      }
      if forceUnlockID != id {
        return;
      }
      server.unlocks := server.unlocks + 1;
    }
  }
}
