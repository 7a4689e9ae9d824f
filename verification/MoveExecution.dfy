/** Executing move statements on a state: the bookkeeping of `ApplyMoves` in
    `internal/refactoring/move_execute.go`.

    A state is a map from resource instance addresses to objects. Every move, of a module, a resource or an
    instance, relocates instances one by one to addresses that are free; an occupied address blocks the
    move. `changes` maps each address that something moved to onto the address it came from, with chains
    of moves summarised into one entry.
 */
module MoveExecution {
  import opened Addrs
  import opened MoveEndpoints
  import opened MoveAlgebra

  datatype Statement = Statement(from: Endpoint, to: Endpoint) {
    predicate Valid() {
      SameStatement(from, to) && WellFormed(from) && WellFormed(to)
    }
  }

  type Changes = map<AbsResourceInstance, AbsResourceInstance>

  /** What `recordOldAddr` makes of the changes: a chain of moves keeps its first address. */
  function Recorded(changes: Changes, old_: AbsResourceInstance, new_: AbsResourceInstance): Changes {
    if old_ in changes then (changes - {old_})[new_ := changes[old_]] else changes[new_ := old_]
  }

  /** Where the object now at an address was originally. */
  function OldAddr(changes: Changes, addr: AbsResourceInstance): AbsResourceInstance {
    if addr in changes then changes[addr] else addr
  }

  class MoveResults {
    var changes: Changes

    constructor ()
      ensures changes == map[]
    {
      changes := map[];
    }

    method RecordOldAddr(oldAddr: AbsResourceInstance, newAddr: AbsResourceInstance)
      modifies this
      ensures changes == Recorded(old(changes), oldAddr, newAddr)
    {
      var from := oldAddr;
      if oldAddr in changes {
        var prevMove := changes[oldAddr];
        changes := changes - {oldAddr};
        from := prevMove;
      }
      changes := changes[newAddr := from];
    }
  }

  datatype Progress<V> = Progress(state: map<AbsResourceInstance, V>, changes: Changes)

  /** An object changes its address, and the change is recorded. */
  function Transfer<V>(p: Progress<V>, addr: AbsResourceInstance, dest: AbsResourceInstance): Progress<V>
    requires addr in p.state
  {
    Progress((p.state - {addr})[dest := p.state[addr]], Recorded(p.changes, addr, dest))
  }

  /** One relocation: the statement applies to the object at `addr`, whose destination must be free. */
  function Relocate<V>(p: Progress<V>, stmt: Statement, addr: AbsResourceInstance): Progress<V>
    requires stmt.Valid()
  {
    match InstanceDestination(addr, stmt.from, stmt.to)
    case None => p
    case Some(dest) =>
      if addr !in p.state || dest in p.state then p else Transfer(p, addr, dest)
  }

  datatype Attempt = Attempt(stmt: Statement, addr: AbsResourceInstance)

  predicate ValidAttempts(attempts: seq<Attempt>) {
    forall i | 0 <= i < |attempts| :: attempts[i].stmt.Valid()
  }

  function Execute<V>(p: Progress<V>, attempts: seq<Attempt>): Progress<V>
    requires ValidAttempts(attempts)
  {
    if attempts == [] then p else
    Relocate(Execute(p, attempts[..|attempts| - 1]), attempts[|attempts| - 1].stmt, attempts[|attempts| - 1].addr)
  }

  /** Every object is where the changes say it came from, and no two come from one place. */
  ghost predicate Conserved<V>(initial: map<AbsResourceInstance, V>, p: Progress<V>) {
    && p.changes.Keys <= p.state.Keys
    && (forall a | a in p.state :: OldAddr(p.changes, a) in initial && p.state[a] == initial[OldAddr(p.changes, a)])
    && (forall a, b | a in p.state && b in p.state && a != b :: OldAddr(p.changes, a) != OldAddr(p.changes, b))
    && |p.state| == |initial|
  }

  /** A transfer moves the original address along with the object and leaves all others alone. */
  lemma TransferOrigin<V>(p: Progress<V>, addr: AbsResourceInstance, dest: AbsResourceInstance, a: AbsResourceInstance)
    requires addr in p.state && dest !in p.state && p.changes.Keys <= p.state.Keys
    requires a in Transfer(p, addr, dest).state
    ensures var source := if a == dest then addr else a;
            && source in p.state && Transfer(p, addr, dest).state[a] == p.state[source]
            && OldAddr(Transfer(p, addr, dest).changes, a) == OldAddr(p.changes, source)
  {
  }

  lemma TransferSize<V>(p: Progress<V>, addr: AbsResourceInstance, dest: AbsResourceInstance)
    requires addr in p.state && dest !in p.state && p.changes.Keys <= p.state.Keys
    ensures var q := Transfer(p, addr, dest);
            |q.state| == |p.state| && q.changes.Keys <= q.state.Keys
  {
    var q := Transfer(p, addr, dest);
    assert q.state.Keys == p.state.Keys - {addr} + {dest};
    assert |q.state.Keys| == |p.state.Keys|;
  }

  lemma TransferConserves<V>(
      initial: map<AbsResourceInstance, V>, p: Progress<V>, addr: AbsResourceInstance, dest: AbsResourceInstance)
    requires Conserved(initial, p) && addr in p.state && dest !in p.state
    ensures Conserved(initial, Transfer(p, addr, dest))
  {
    var q := Transfer(p, addr, dest);
    TransferSize(p, addr, dest);
    forall a | a in q.state ensures OldAddr(q.changes, a) in initial && q.state[a] == initial[OldAddr(q.changes, a)] {
      TransferOrigin(p, addr, dest, a);
    }
    forall a, b | a in q.state && b in q.state && a != b ensures OldAddr(q.changes, a) != OldAddr(q.changes, b) {
      TransferOrigin(p, addr, dest, a);
      TransferOrigin(p, addr, dest, b);
    }
  }

  lemma RelocateConserves<V>(
      initial: map<AbsResourceInstance, V>, p: Progress<V>, stmt: Statement, addr: AbsResourceInstance)
    requires stmt.Valid() && Conserved(initial, p)
    ensures Conserved(initial, Relocate(p, stmt, addr))
  {
    var dest := InstanceDestination(addr, stmt.from, stmt.to);
    if dest.Some? && addr in p.state && dest.value !in p.state {
      TransferConserves(initial, p, addr, dest.value);
    }
  }

  /** However many statements are executed, in whatever order and with whatever blocked: no object is lost,
      duplicated or altered, and the recorded old address of each one is its original address. */
  lemma {:induction false} ExecutionConserves<V>(initial: map<AbsResourceInstance, V>, attempts: seq<Attempt>)
    requires ValidAttempts(attempts)
    ensures Conserved(initial, Execute(Progress(initial, map[]), attempts))
  {
    if attempts != [] {
      var init := attempts[..|attempts| - 1];
      ExecutionConserves(initial, init);
      RelocateConserves(initial, Execute(Progress(initial, map[]), init), attempts[|attempts| - 1].stmt,
        attempts[|attempts| - 1].addr);
    }
  }

  /** The old addresses are exactly the addresses there were. */
  lemma OldAddressesAreAll<V>(initial: map<AbsResourceInstance, V>, attempts: seq<Attempt>)
    requires ValidAttempts(attempts)
    ensures var p := Execute(Progress(initial, map[]), attempts);
            (set a | a in p.state :: OldAddr(p.changes, a)) == initial.Keys
  {
    ExecutionConserves(initial, attempts);
    var p := Execute(Progress(initial, map[]), attempts);
    InjectiveImageSize(p.state.Keys, p.changes);
    SubsetOfSameSize(set a | a in p.state :: OldAddr(p.changes, a), initial.Keys);
  }

  lemma {:induction false} InjectiveImageSize(addrs: set<AbsResourceInstance>, changes: Changes)
    requires forall a, b | a in addrs && b in addrs && a != b :: OldAddr(changes, a) != OldAddr(changes, b)
    ensures |set a | a in addrs :: OldAddr(changes, a)| == |addrs|
    decreases addrs
  {
    if addrs != {} {
      var x :| x in addrs;
      var rest := addrs - {x};
      InjectiveImageSize(rest, changes);
      assert (set a | a in addrs :: OldAddr(changes, a)) ==
             (set a | a in rest :: OldAddr(changes, a)) + {OldAddr(changes, x)};
    }
  }

  lemma {:induction false} SubsetOfSameSize(a: set<AbsResourceInstance>, b: set<AbsResourceInstance>)
    requires a <= b && |a| == |b|
    ensures a == b
    decreases a
  {
    if a != {} {
      var x :| x in a;
      SubsetOfSameSize(a - {x}, b - {x});
    }
  }

  /** A relocation can be taken back: the reversed statement, applied where the object went, restores the
      state as it was. */
  lemma RelocationUndone<V>(p: Progress<V>, stmt: Statement, addr: AbsResourceInstance)
    requires stmt.Valid() && Relocate(p, stmt, addr).state != p.state
    ensures var dest := InstanceDestination(addr, stmt.from, stmt.to).value;
            Relocate(Relocate(p, stmt, addr), Statement(stmt.to, stmt.from), dest).state == p.state
  {
    InstanceMoveInvertible(addr, stmt.from, stmt.to);
  }
}
