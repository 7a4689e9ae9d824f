/** Parsing of targetable addresses: `internal/addrs/parse_target.go` and the module prefix parser of
    `internal/addrs/module_instance.go`.

    Diagnostics are reduced to whether there are any. The main results say that the parser and the
    printer undo each other, and exactly where they do not.
 */
module TargetParsing {
  import opened Addrs
  import opened Traversals
  import opened AddressText

  /** The addresses `ParseTarget` can return. */
  datatype Target =
    | ModuleTarget(m: ModuleInstance)
    | ResourceTarget(r: AbsResource)
    | InstanceTarget(ri: AbsResourceInstance)

  // ---------------------------------------------------------------- module prefix

  datatype ModuleName = NotModule | IsModule(name: string) | BadModule

  function GetModuleName(remain: Traversal): (r: ModuleName)
    ensures r.IsModule? ==> |remain| >= 2
  {
    if remain == [] then NotModule
    else if !remain[0].Root? && !remain[0].Attr? then BadModule
    else if remain[0].name != "module" then NotModule
    else if |remain| == 1 || !remain[1].Attr? then BadModule
    else IsModule(remain[1].name)
  }

  /** The instance key an index value stands for: a string, or a number that is a machine integer. */
  function ParseInstanceKey(v: IndexValue): Option<InstanceKey> {
    match v
    case StringValue(text) => Some(StringKey(text))
    case NumberValue(number) =>
      if number.Floor as real == number && MIN_INT <= number.Floor <= MAX_INT then Some(IntKey(number.Floor)) else None
    case OtherValue => None
  }

  /** The longest module path at the front of a traversal and what remains; `None` for bad syntax. */
  function ModulePrefix(t: Traversal): Option<(ModuleInstance, Traversal)>
    decreases |t|
  {
    match GetModuleName(t)
    case BadModule => None
    case NotModule => Some(([], t))
    case IsModule(name) =>
      var rest := t[2..];
      if rest != [] && rest[0].Index? then
        (match ParseInstanceKey(rest[0].key)
         case None => None
         case Some(key) => InFront([ModuleInstanceStep(name, key)], ModulePrefix(rest[1..])))
      else
        InFront([ModuleInstanceStep(name, NoKey)], ModulePrefix(rest))
  }

  function InFront(path: ModuleInstance, r: Option<(ModuleInstance, Traversal)>): Option<(ModuleInstance, Traversal)> {
    match r
    case None => None
    case Some((more, remain)) => Some((path + more, remain))
  }

  lemma InFrontTwice(a: ModuleInstance, b: ModuleInstance, r: Option<(ModuleInstance, Traversal)>)
    ensures InFront(a, InFront(b, r)) == InFront(a + b, r)
  {
    if r.Some? {
      assert a + (b + r.value.0) == a + b + r.value.0;
    }
  }

  lemma InFrontNothing(r: Option<(ModuleInstance, Traversal)>)
    ensures InFront([], r) == r
  {
    if r.Some? {
      assert [] + r.value.0 == r.value.0;
    }
  }

  /** The parsing loop. A bad index is reported but the loop only stops at its next turn. */
  method ParseModuleInstancePrefix(t: Traversal) returns (mi: ModuleInstance, retRemain: Traversal, failed: bool)
    ensures failed == ModulePrefix(t).None?
    ensures !failed ==> mi == ModulePrefix(t).value.0 && retRemain == Absolute(ModulePrefix(t).value.1)
  {
    var remain := t;
    mi, failed := [], false;
    InFrontNothing(ModulePrefix(t));
    while |remain| > 0
      invariant failed ==> ModulePrefix(t).None?
      invariant !failed ==> ModulePrefix(t) == InFront(mi, ModulePrefix(remain))
      decreases |remain|
    {
      var name := GetModuleName(remain);
      if name.BadModule? {
        failed := true;
      }
      if !name.IsModule? || failed {
        break;
      }
      remain := remain[2..];
      var step := ModuleInstanceStep(name.name, NoKey);
      if |remain| > 0 && remain[0].Index? {
        var key := ParseInstanceKey(remain[0].key);
        remain := remain[1..];
        if key.Some? {
          step := step.(key := key.value);
        } else {
          failed := true;
        }
      }
      InFrontTwice(mi, [step], ModulePrefix(remain));
      mi := mi + [step];
    }
    retRemain := [];
    if |remain| > 0 {
      retRemain := remain;
      if retRemain[0].Attr? {
        retRemain := [Root(retRemain[0].name)] + retRemain[1..];
      }
    }
    if !failed {
      assert ModulePrefix(remain) == Some(([], remain));
      assert mi + [] == mi;
    }
  }

  // ---------------------------------------------------------------- resources under a module

  /** The root name of a traversal, which must not be relative. */
  function RootName(t: Traversal): string
    requires |t| > 0 && t[0].Root?
  {
    t[0].name
  }

  function ParseResourceTypeAndName(remain: Traversal): (r: Option<(string, string)>)
    ensures r.Some? ==> |remain| >= 2
  {
    if |remain| < 2 then None
    else if !remain[0].Root? && !remain[0].Attr? then None
    else if !remain[1].Attr? then None
    else Some((remain[0].name, remain[1].name))
  }

  function ModeOf(rootName: string): ResourceMode {
    if rootName == "data" then Data else if rootName == "ephemeral" then Ephemeral else Managed
  }

  function ParseResourceInstanceUnderModule(path: ModuleInstance, remain: Traversal): Option<AbsResourceInstance>
    requires |remain| > 0 && remain[0].Root?
  {
    var mode := ModeOf(RootName(remain));
    var named := if mode == Managed then remain else remain[1..];
    match ParseResourceTypeAndName(named)
    case None => None
    case Some((typeName, name)) =>
      var resource := AbsResource(path, Resource(mode, typeName, name));
      var rest := named[2..];
      if |rest| == 0 then Some(InstanceOf(resource, NoKey))
      else if |rest| == 1 && rest[0].Index? then
        match ParseInstanceKey(rest[0].key)
        case None => None
        case Some(key) => Some(InstanceOf(resource, key))
      else None
  }

  /** Once the module prefix is read without error, what remains starts with a root name. */
  lemma RemainderIsAbsolute(t: Traversal)
    requires ModulePrefix(t).Some? && ModulePrefix(t).value.1 != []
    ensures Absolute(ModulePrefix(t).value.1)[0].Root?
    ensures GetModuleName(ModulePrefix(t).value.1) == NotModule
    decreases |t|
  {
    if GetModuleName(t).IsModule? {
      RemainderIsAbsolute(if |t| > 2 && t[2].Index? then t[3..] else t[2..]);
    }
  }

  /** The target reported for a resource instance: a keyless one counts as its whole resource. */
  function AsTarget(ri: AbsResourceInstance): Target {
    if ri.local.key == NoKey then ResourceTarget(ri.ContainingResource()) else InstanceTarget(ri)
  }

  function ParseTarget(t: Traversal): Option<Target> {
    match ModulePrefix(t)
    case None => None
    case Some((path, remain)) =>
      if remain == [] then Some(ModuleTarget(path)) else
      RemainderIsAbsolute(t);
      match ParseResourceInstanceUnderModule(path, Absolute(remain))
      case None => None
      case Some(ri) => Some(AsTarget(ri))
  }

  /** The entry point as the code runs it: first the loop, then dispatch on what remains. */
  method ParseTargetTraversal(t: Traversal) returns (r: Option<Target>)
    ensures r == ParseTarget(t)
  {
    var path, remain, failed := ParseModuleInstancePrefix(t);
    if failed {
      return None;
    }
    if |remain| == 0 {
      return Some(ModuleTarget(path));
    }
    RemainderIsAbsolute(t);
    var ri := ParseResourceInstanceUnderModule(path, remain);
    if ri.None? {
      return None;
    }
    if ri.value.local.key == NoKey {
      return Some(ResourceTarget(ri.value.ContainingResource()));
    }
    return Some(InstanceTarget(ri.value));
  }

  function ParseTargetStr(s: string): Option<Target> {
    match ParseTraversalAbs(s)
    case None => None
    case Some(t) => ParseTarget(t)
  }

  function ParseAbsResourceInstance(t: Traversal): Option<AbsResourceInstance> {
    match ParseTarget(t)
    case Some(ResourceTarget(r)) => Some(InstanceOf(r, NoKey))
    case Some(InstanceTarget(ri)) => Some(ri)
    case _ => None
  }

  // ---------------------------------------------------------------- what is accepted re-renders to itself

  function TargetSteps(a: Target): Traversal {
    match a
    case ModuleTarget(m) => ModuleSteps(m)
    case ResourceTarget(r) => AbsResourceSteps(r)
    case InstanceTarget(ri) => AbsInstanceSteps(ri)
  }

  lemma KeyOfValue(v: IndexValue)
    requires ParseInstanceKey(v).Some?
    ensures KeySteps(ParseInstanceKey(v).value) == [Index(v)]
  {
  }

  /** Reading one module step off the front of a traversal. */
  lemma StepRead(t: Traversal) returns (step: ModuleInstanceStep, rest: Traversal)
    requires GetModuleName(t).IsModule? && ModulePrefix(t).Some?
    ensures |rest| < |t| && rest == t[|t| - |rest|..] && |t| - |rest| >= 2
    ensures Relative(t) == [Attr("module"), Attr(step.name)] + KeySteps(step.key) + rest
    ensures ModulePrefix(t) == InFront([step], ModulePrefix(rest))
  {
    if |t| > 2 && t[2].Index? {
      KeyedStepRead(t);
      step, rest := ModuleInstanceStep(t[1].name, ParseInstanceKey(t[2].key).value), t[3..];
    } else {
      KeylessStepRead(t);
      step, rest := ModuleInstanceStep(t[1].name, NoKey), t[2..];
    }
  }

  lemma KeyedStepRead(t: Traversal)
    requires GetModuleName(t).IsModule? && ModulePrefix(t).Some? && |t| > 2 && t[2].Index?
    ensures ParseInstanceKey(t[2].key).Some?
    ensures var step := ModuleInstanceStep(t[1].name, ParseInstanceKey(t[2].key).value);
            && Relative(t) == [Attr("module"), Attr(step.name)] + KeySteps(step.key) + t[3..]
            && ModulePrefix(t) == InFront([step], ModulePrefix(t[3..]))
  {
    KeyOfValue(t[2].key);
    KeyedStepRelative(t);
    assert t[2..][1..] == t[3..];
  }

  lemma KeyedStepRelative(t: Traversal)
    requires GetModuleName(t).IsModule? && |t| > 2
    ensures Relative(t) == [Attr("module"), Attr(t[1].name)] + [t[2]] + t[3..]
  {
  }

  lemma KeylessStepRead(t: Traversal)
    requires GetModuleName(t).IsModule? && ModulePrefix(t).Some? && !(|t| > 2 && t[2].Index?)
    ensures var step := ModuleInstanceStep(t[1].name, NoKey);
            && Relative(t) == [Attr("module"), Attr(step.name)] + KeySteps(step.key) + t[2..]
            && ModulePrefix(t) == InFront([step], ModulePrefix(t[2..]))
  {
  }

  lemma {:induction false} PrefixKeepsSteps(t: Traversal)
    requires forall i | 0 < i < |t| :: !t[i].Root?
    requires ModulePrefix(t).Some?
    ensures Relative(t) == ModuleSteps(ModulePrefix(t).value.0) + Relative(ModulePrefix(t).value.1)
    ensures forall i | 0 < i < |ModulePrefix(t).value.1| :: !ModulePrefix(t).value.1[i].Root?
    decreases |t|
  {
    if GetModuleName(t).IsModule? {
      var step, rest := StepRead(t);
      PrefixKeepsSteps(rest);
      assert Relative(rest) == rest;
      var (more, remain) := ModulePrefix(rest).value;
      ConsSteps(step, more, Relative(remain));
    }
  }

  lemma ConsSteps(step: ModuleInstanceStep, more: ModuleInstance, tail: Traversal)
    ensures ModuleSteps([step] + more) + tail ==
            [Attr("module"), Attr(step.name)] + KeySteps(step.key) + (ModuleSteps(more) + tail)
  {
    assert ([step] + more)[1..] == more;
  }

  lemma ResourceKeepsSteps(path: ModuleInstance, remain: Traversal)
    requires |remain| > 0 && remain[0].Root? && (forall i | 0 < i < |remain| :: !remain[i].Root?)
    requires ParseResourceInstanceUnderModule(path, remain).Some?
    ensures var ri := ParseResourceInstanceUnderModule(path, remain).value;
            && ri.path == path
            && Relative(remain) == ResourceSteps(ri.local.resource) + KeySteps(ri.local.key)
  {
    var ri := ParseResourceInstanceUnderModule(path, remain).value;
    var mode := ModeOf(RootName(remain));
    var named := if mode == Managed then remain else remain[1..];
    var rest := named[2..];
    if |rest| == 1 {
      KeyOfValue(rest[0].key);
    }
    assert rest == KeySteps(ri.local.key);
    assert Relative(remain) ==
           ModeSteps(mode) + [Attr(ri.local.resource.typeName), Attr(ri.local.resource.name)] + rest;
  }

  lemma RelativeOfAbsolute(t: Traversal)
    ensures Relative(Absolute(t)) == Relative(t)
  {
    if t != [] && t[0].Attr? {
      assert Absolute(t)[1..] == t[1..];
    }
  }

  lemma AcceptedInstance(t: Traversal, path: ModuleInstance, rooted: Traversal)
    requires |rooted| > 0 && rooted[0].Root? && (forall i | 0 < i < |rooted| :: !rooted[i].Root?)
    requires Relative(t) == ModuleSteps(path) + Relative(rooted)
    requires ParseResourceInstanceUnderModule(path, rooted).Some?
    ensures Relative(t) == AbsInstanceSteps(ParseResourceInstanceUnderModule(path, rooted).value)
  {
    ResourceKeepsSteps(path, rooted);
    InstanceStepsRegrouped(ParseResourceInstanceUnderModule(path, rooted).value);
  }

  lemma InstanceStepsRegrouped(ri: AbsResourceInstance)
    ensures ModuleSteps(ri.path) + (ResourceSteps(ri.local.resource) + KeySteps(ri.local.key)) == AbsInstanceSteps(ri)
  {
  }

  lemma RootedTail(t: Traversal)
    requires forall i | 0 < i < |t| :: !t[i].Root?
    ensures forall i | 0 < i < |Absolute(t)| :: !Absolute(t)[i].Root?
  {
  }

  lemma AcceptedRemainder(t: Traversal, path: ModuleInstance, remain: Traversal)
    requires IsAbsolute(t) && ModulePrefix(t) == Some((path, remain)) && remain != []
    ensures var rooted := Absolute(remain);
            && |rooted| > 0 && rooted[0].Root? && (forall i | 0 < i < |rooted| :: !rooted[i].Root?)
            && Relative(t) == ModuleSteps(path) + Relative(rooted)
  {
    RemainderIsAbsolute(t);
    PrefixKeepsSteps(t);
    RelativeOfAbsolute(remain);
    RootedTail(remain);
  }

  lemma AcceptedModule(t: Traversal, path: ModuleInstance)
    requires IsAbsolute(t) && ModulePrefix(t) == Some((path, []))
    ensures ModuleSteps(path) == Relative(t)
  {
    PrefixKeepsSteps(t);
    assert ModuleSteps(path) + [] == ModuleSteps(path);
  }

  lemma AsTargetSteps(ri: AbsResourceInstance)
    ensures TargetSteps(AsTarget(ri)) == AbsInstanceSteps(ri)
  {
  }

  lemma AcceptedSteps(t: Traversal)
    requires IsAbsolute(t) && ParseTarget(t).Some?
    ensures TargetSteps(ParseTarget(t).value) == Relative(t)
  {
    var (path, remain) := ModulePrefix(t).value;
    if remain == [] {
      AcceptedModule(t, path);
    } else {
      AcceptedRemainder(t, path, remain);
      AcceptedInstance(t, path, Absolute(remain));
      AsTargetSteps(ParseResourceInstanceUnderModule(path, Absolute(remain)).value);
    }
  }

  /** Any absolute traversal that is accepted is exactly the traversal of the address it gives. */
  lemma AcceptedReRenders(t: Traversal)
    requires IsAbsolute(t) && ParseTarget(t).Some?
    ensures Absolute(TargetSteps(ParseTarget(t).value)) == t
  {
    AcceptedSteps(t);
    AbsoluteOfRelative(t);
  }

  // ---------------------------------------------------------------- what is rendered parses back

  /** An instance target carries a key; a keyless instance is reported as its whole resource. */
  predicate InRange(a: Target) {
    a.InstanceTarget? ==> a.ri.local.key != NoKey
  }

  /** A managed resource type that the parser takes for a keyword. */
  predicate Reserved(r: Resource) {
    r.mode == Managed && r.typeName in {"module", "data", "ephemeral"}
  }

  predicate ReservedTarget(a: Target) {
    match a
    case ModuleTarget(_) => false
    case ResourceTarget(r) => Reserved(r.resource)
    case InstanceTarget(ri) => Reserved(ri.local.resource)
  }

  /** Reading a root in place of the first name makes no difference to the module prefix parser,
      except in a remainder that is the whole traversal. */
  lemma PrefixOfAbsolute(t: Traversal)
    ensures ModulePrefix(Absolute(t)) ==
            match ModulePrefix(t)
            case None => None
            case Some((path, remain)) => Some((path, if path == [] then Absolute(remain) else remain))
  {
    if t != [] && t[0].Attr? {
      assert Absolute(t)[1..] == t[1..];
      if |t| >= 2 {
        assert Absolute(t)[2..] == t[2..];
      }
    }
  }

  lemma AbsoluteTwice(t: Traversal)
    ensures Absolute(Absolute(t)) == Absolute(t)
  {
  }

  lemma KeylessStepWritten(name: string, rest: Traversal)
    requires rest == [] || !rest[0].Index?
    ensures ModulePrefix([Attr("module"), Attr(name)] + rest) ==
            InFront([ModuleInstanceStep(name, NoKey)], ModulePrefix(rest))
  {
    var t := [Attr("module"), Attr(name)] + rest;
    assert t[2..] == rest;
  }

  lemma KeyedStepWritten(step: ModuleInstanceStep, rest: Traversal)
    requires step.key != NoKey
    ensures ModulePrefix([Attr("module"), Attr(step.name), Index(KeyValue(step.key))] + rest) ==
            InFront([step], ModulePrefix(rest))
  {
    var t := [Attr("module"), Attr(step.name), Index(KeyValue(step.key))] + rest;
    assert t[2] == Index(KeyValue(step.key));
    assert t[2..][1..] == rest;
  }

  lemma StepWritten(step: ModuleInstanceStep, rest: Traversal)
    requires rest == [] || !rest[0].Index?
    ensures ModulePrefix([Attr("module"), Attr(step.name)] + KeySteps(step.key) + rest) ==
            InFront([step], ModulePrefix(rest))
  {
    var names := [Attr("module"), Attr(step.name)];
    if step.key == NoKey {
      KeylessStepWritten(step.name, rest);
      assert names + KeySteps(step.key) == names;
    } else {
      KeyedStepWritten(step, rest);
      assert names + KeySteps(step.key) == [Attr("module"), Attr(step.name), Index(KeyValue(step.key))];
    }
  }

  /** A module path in front of anything that does not itself look like a module is read off whole. */
  lemma {:induction false} PrefixOfSteps(m: ModuleInstance, tail: Traversal)
    requires GetModuleName(tail) == NotModule
    ensures ModulePrefix(ModuleSteps(m) + tail) == Some((m, tail))
  {
    if m == [] {
      assert ModuleSteps(m) + tail == tail;
    } else {
      PrefixOfSteps(m[1..], tail);
      assert m == [m[0]] + m[1..];
      ConsSteps(m[0], m[1..], tail);
      StepWritten(m[0], ModuleSteps(m[1..]) + tail);
    }
  }

  lemma PrefixOfTarget(m: ModuleInstance, tail: Traversal)
    requires GetModuleName(tail) == NotModule
    ensures var p := ModulePrefix(Absolute(ModuleSteps(m) + tail));
            p.Some? && p.value.0 == m && Absolute(p.value.1) == Absolute(tail) && (p.value.1 == [] <==> tail == [])
  {
    PrefixOfSteps(m, tail);
    PrefixOfAbsolute(ModuleSteps(m) + tail);
    AbsoluteTwice(tail);
  }

  lemma ParseOfInstanceSteps(ri: AbsResourceInstance)
    requires !Reserved(ri.local.resource)
    ensures ParseResourceInstanceUnderModule(ri.path,
            Absolute(ResourceSteps(ri.local.resource) + KeySteps(ri.local.key))) == Some(ri)
  {
    var r, key := ri.local.resource, ri.local.key;
    var t := Absolute(ResourceSteps(r) + KeySteps(key));
    var named := if r.mode == Managed then t else t[1..];
    assert ModeOf(RootName(t)) == r.mode;
    assert |named| == 2 + |KeySteps(key)|;
    assert named[1] == Attr(r.name) && named[2..] == KeySteps(key);
  }

  /** Where the traversal of an unreserved instance leads. */
  lemma ParseUnreserved(ri: AbsResourceInstance)
    requires !Reserved(ri.local.resource)
    ensures ParseTarget(Absolute(AbsInstanceSteps(ri))) ==
            Some(AsTarget(ri))
  {
    var tail := ResourceSteps(ri.local.resource) + KeySteps(ri.local.key);
    assert AbsInstanceSteps(ri) == ModuleSteps(ri.path) + tail;
    PrefixOfTarget(ri.path, tail);
    ParseOfInstanceSteps(ri);
  }

  /** A managed resource of type "module" reads as a deeper module. */
  lemma ParseModuleType(ri: AbsResourceInstance)
    requires ri.local.resource.mode == Managed && ri.local.resource.typeName == "module"
    ensures ParseTarget(Absolute(AbsInstanceSteps(ri))) ==
            Some(ModuleTarget(ri.path + [ModuleInstanceStep(ri.local.resource.name, ri.local.key)]))
  {
    var step := ModuleInstanceStep(ri.local.resource.name, ri.local.key);
    ModuleStepsSplit(ri.path, [step]);
    assert ModuleSteps([step]) == [Attr("module"), Attr(step.name)] + KeySteps(step.key);
    assert AbsInstanceSteps(ri) == ModuleSteps(ri.path + [step]) + [];
    PrefixOfTarget(ri.path + [step], []);
  }

  /** A managed resource of type "data" or "ephemeral" has too few names left. */
  lemma ParseModeType(ri: AbsResourceInstance)
    requires ri.local.resource.mode == Managed && ri.local.resource.typeName in {"data", "ephemeral"}
    ensures ParseTarget(Absolute(AbsInstanceSteps(ri))).None?
  {
    var r, key := ri.local.resource, ri.local.key;
    var tail := [Attr(r.typeName), Attr(r.name)] + KeySteps(key);
    assert AbsInstanceSteps(ri) == ModuleSteps(ri.path) + tail;
    PrefixOfTarget(ri.path, tail);
    assert Absolute(tail)[1..] == [Attr(r.name)] + KeySteps(key);
  }

  /** The traversal of an instance with a reserved type never leads back to its resource or to it. */
  lemma ParseReserved(ri: AbsResourceInstance)
    requires Reserved(ri.local.resource)
    ensures var p := ParseTarget(Absolute(AbsInstanceSteps(ri))); p.None? || p.value.ModuleTarget?
  {
    if ri.local.resource.typeName == "module" {
      ParseModuleType(ri);
    } else {
      ParseModeType(ri);
    }
  }

  /** Parsing the traversal of an address gives it back exactly when no keyword stands in its way. */
  lemma ParseUndoesSteps(a: Target)
    requires InRange(a)
    ensures ParseTarget(Absolute(TargetSteps(a))) == Some(a) <==> !ReservedTarget(a)
  {
    match a {
      case ModuleTarget(m) =>
        assert ModuleSteps(m) + [] == ModuleSteps(m);
        PrefixOfTarget(m, []);
      case ResourceTarget(r) =>
        var ri := InstanceOf(r, NoKey);
        assert AbsInstanceSteps(ri) == AbsResourceSteps(r);
        if Reserved(r.resource) { ParseReserved(ri); } else { ParseUnreserved(ri); }
      case InstanceTarget(ri) =>
        if Reserved(ri.local.resource) { ParseReserved(ri); } else { ParseUnreserved(ri); }
    }
  }

  // ---------------------------------------------------------------- the same through text

  predicate ValidTarget(a: Target) {
    match a
    case ModuleTarget(m) => ValidModule(m)
    case ResourceTarget(r) => ValidModule(r.path) && ValidResource(r.resource)
    case InstanceTarget(ri) => ValidModule(ri.path) && ValidResource(ri.local.resource)
  }

  function TargetText(a: Target, isPrint: char -> bool): string {
    match a
    case ModuleTarget(m) => ModuleText(m, isPrint)
    case ResourceTarget(r) => AbsResourceText(r, isPrint)
    case InstanceTarget(ri) => AbsInstanceText(ri, isPrint)
  }

  predicate NegativeKey(key: InstanceKey) {
    key.IntKey? && key.index < 0
  }

  /** Somewhere in the address there is a negative integer key. */
  predicate HasNegativeKey(a: Target) {
    match a
    case ModuleTarget(m) => exists i | 0 <= i < |m| :: NegativeKey(m[i].key)
    case ResourceTarget(r) => exists i | 0 <= i < |r.path| :: NegativeKey(r.path[i].key)
    case InstanceTarget(ri) => NegativeKey(ri.local.key) || exists i | 0 <= i < |ri.path| :: NegativeKey(ri.path[i].key)
  }

  predicate HasNegativeStep(t: Traversal) {
    exists i | 0 <= i < |t| :: IsNegative(t[i])
  }

  lemma NegativeConcat(t: Traversal, u: Traversal)
    ensures HasNegativeStep(t + u) <==> HasNegativeStep(t) || HasNegativeStep(u)
  {
    if i :| 0 <= i < |t| && IsNegative(t[i]) {
      assert IsNegative((t + u)[i]);
    }
    if i :| 0 <= i < |u| && IsNegative(u[i]) {
      assert IsNegative((t + u)[|t| + i]);
    }
  }

  lemma NegativeKeySteps(key: InstanceKey)
    ensures HasNegativeStep(KeySteps(key)) <==> NegativeKey(key)
  {
    if NegativeKey(key) {
      assert IsNegative(KeySteps(key)[0]);
    }
  }

  lemma {:induction false} NegativeModuleSteps(m: ModuleInstance)
    ensures HasNegativeStep(ModuleSteps(m)) <==> exists i | 0 <= i < |m| :: NegativeKey(m[i].key)
  {
    if m != [] {
      NegativeModuleSteps(m[1..]);
      NegativeKeySteps(m[0].key);
      NegativeConcat([Attr("module"), Attr(m[0].name)], KeySteps(m[0].key));
      NegativeConcat([Attr("module"), Attr(m[0].name)] + KeySteps(m[0].key), ModuleSteps(m[1..]));
      if i :| 0 <= i < |m[1..]| && NegativeKey(m[1..][i].key) {
        assert NegativeKey(m[i + 1].key);
      }
      if i :| 0 <= i < |m| && NegativeKey(m[i].key) {
        if i > 0 {
          assert NegativeKey(m[1..][i - 1].key);
        }
      }
    }
  }

  lemma NegativeInstanceSteps(ri: AbsResourceInstance)
    ensures HasNegativeStep(AbsResourceSteps(ri.ContainingResource())) <==>
            exists i | 0 <= i < |ri.path| :: NegativeKey(ri.path[i].key)
    ensures HasNegativeStep(AbsInstanceSteps(ri)) <==>
            NegativeKey(ri.local.key) || HasNegativeStep(AbsResourceSteps(ri.ContainingResource()))
  {
    NegativeModuleSteps(ri.path);
    NegativeKeySteps(ri.local.key);
    NegativeConcat(ModuleSteps(ri.path), ResourceSteps(ri.local.resource));
    NegativeConcat(AbsResourceSteps(ri.ContainingResource()), KeySteps(ri.local.key));
  }

  lemma NegativeTargetSteps(a: Target)
    ensures HasNegativeStep(TargetSteps(a)) <==> HasNegativeKey(a)
  {
    match a {
      case ModuleTarget(m) => NegativeModuleSteps(m);
      case ResourceTarget(r) => NegativeInstanceSteps(InstanceOf(r, NoKey));
      case InstanceTarget(ri) => NegativeInstanceSteps(ri);
    }
  }

  predicate IsRoot(a: Target) {
    a.ModuleTarget? && a.m == []
  }

  lemma TargetTextIsRendered(a: Target, isPrint: char -> bool)
    requires !IsRoot(a)
    ensures "." + TargetText(a, isPrint) == Render(TargetSteps(a), isPrint)
  {
    match a {
      case ModuleTarget(m) => ModuleTextIsRendered(m, isPrint);
      case ResourceTarget(r) => AbsResourceTextIsRendered(r, isPrint);
      case InstanceTarget(ri) => AbsInstanceTextIsRendered(ri, isPrint);
    }
  }

  lemma TargetStepsPrintable(a: Target)
    requires ValidTarget(a)
    ensures AllPrintable(TargetSteps(a))
  {
    match a {
      case ModuleTarget(m) => ModuleStepsPrintable(m);
      case ResourceTarget(r) => InstanceStepsPrintable(InstanceOf(r, NoKey));
      case InstanceTarget(ri) => InstanceStepsPrintable(ri);
    }
  }

  lemma ScanOfTargetText(a: Target, isPrint: char -> bool)
    requires isPrint('{') && ValidTarget(a) && !IsRoot(a)
    ensures ParseTraversalAbs(TargetText(a, isPrint)) ==
            if HasNegativeKey(a) then None else Some(Absolute(TargetSteps(a)))
  {
    TargetTextIsRendered(a, isPrint);
    TargetStepsPrintable(a);
    ScanRendered(TargetSteps(a), isPrint);
    NegativeTargetSteps(a);
  }

  /** Printing an address and parsing the text gives the address back, precisely when it is not the
      root module (whose text is empty), holds no negative integer key (HCL index syntax has no
      sign), and has no managed type that is a keyword. */
  lemma TextRoundTrip(a: Target, isPrint: char -> bool)
    requires isPrint('{') && ValidTarget(a) && InRange(a)
    ensures ParseTargetStr(TargetText(a, isPrint)) == Some(a) <==>
            !IsRoot(a) && !HasNegativeKey(a) && !ReservedTarget(a)
  {
    if IsRoot(a) {
      assert "." + TargetText(a, isPrint) == ".";
    } else {
      ScanOfTargetText(a, isPrint);
      ParseUndoesSteps(a);
    }
  }

  /** Resource instance addresses, keyless ones included, survive printing and parsing exactly if they hold no
      negative integer key and no managed type that is a keyword. */
  lemma InstanceTextRoundTrip(ri: AbsResourceInstance, isPrint: char -> bool)
    requires isPrint('{') && ValidModule(ri.path) && ValidResource(ri.local.resource)
    ensures var t := ParseTraversalAbs(AbsInstanceText(ri, isPrint));
            t.Some? && ParseAbsResourceInstance(t.value) == Some(ri) <==>
            !HasNegativeKey(InstanceTarget(ri)) && !Reserved(ri.local.resource)
  {
    ScanOfTargetText(InstanceTarget(ri), isPrint);
    if Reserved(ri.local.resource) {
      ParseReserved(ri);
    } else {
      ParseUnreserved(ri);
    }
  }
}
