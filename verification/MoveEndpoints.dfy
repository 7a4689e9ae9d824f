/** Move endpoints annotated with their declaring module, as in
    `internal/addrs/move_endpoint_module.go`.

    An endpoint is a pattern: the steps of the declaring module match any instance key.
    The functions below say what each operation means in terms of that pattern; the
    methods follow the code, slice by slice and step by step, and are proved to compute
    those meanings.
 */
module MoveEndpoints {
  import opened Addrs

  datatype Moveable =
    | ModuleSubject(inst: ModuleInstance)
    | CallSubject(call: AbsModuleCall)
    | ResourceSubject(res: AbsResource)
    | InstanceSubject(ri: AbsResourceInstance)
  {
    predicate IsModuleKind() {
      ModuleSubject? || CallSubject?
    }
  }

  /** `subject` is relative to `declared`, the module holding the move statement. */
  datatype Endpoint = Endpoint(declared: Module, subject: Moveable)

  /** The key of a pattern step: the wildcard, or one particular key. */
  datatype PatternKey = AnyKey | Exactly(key: InstanceKey)

  datatype PatternStep = PatternStep(name: string, key: PatternKey)

  type Pattern = seq<PatternStep>

  /** A module subject names at least one step; the root module cannot be moved. */
  predicate WellFormed(e: Endpoint) {
    e.subject.ModuleSubject? ==> |e.subject.inst| > 0
  }

  /** Both endpoints come from one statement: same declaring module, same address type. */
  predicate SameStatement(from: Endpoint, to: Endpoint) {
    && from.declared == to.declared
    && (from.subject.ModuleSubject? <==> to.subject.ModuleSubject?)
    && (from.subject.CallSubject? <==> to.subject.CallSubject?)
    && (from.subject.ResourceSubject? <==> to.subject.ResourceSubject?)
  }

  // ---------------------------------------------------------------- the pattern of an endpoint

  function AnyInstanceOf(m: Module): Pattern {
    seq(|m|, i requires 0 <= i < |m| => PatternStep(m[i], AnyKey))
  }

  function ExactSteps(m: ModuleInstance): Pattern {
    seq(|m|, i requires 0 <= i < |m| => PatternStep(m[i].name, Exactly(m[i].key)))
  }

  function SubjectPattern(s: Moveable): Pattern {
    match s
    case ModuleSubject(inst) => ExactSteps(inst)
    case CallSubject(call) => ExactSteps(call.caller) + [PatternStep(call.name, AnyKey)]
    case ResourceSubject(res) => ExactSteps(res.path)
    case InstanceSubject(ri) => ExactSteps(ri.path)
  }

  /** The whole module path an endpoint speaks of, wildcards included. */
  function Synth(e: Endpoint): Pattern {
    AnyInstanceOf(e.declared) + SubjectPattern(e.subject)
  }

  method SynthModuleInstance(e: Endpoint) returns (inst: Pattern)
    ensures inst == Synth(e)
  {
    inst := [];
    for i := 0 to |e.declared|
      invariant inst == AnyInstanceOf(e.declared)[..i]
    {
      inst := inst + [PatternStep(e.declared[i], AnyKey)];
    }
    match e.subject {
      case ModuleSubject(sub) =>
        inst := inst + ExactSteps(sub);
      case CallSubject(call) =>
        inst := inst + ExactSteps(call.caller);
        inst := inst + [PatternStep(call.name, AnyKey)];
      case ResourceSubject(res) =>
        inst := inst + ExactSteps(res.path);
      case InstanceSubject(ri) =>
        inst := inst + ExactSteps(ri.path);
    }
  }

  // ---------------------------------------------------------------- selection

  predicate StepAdmits(p: PatternStep, s: ModuleInstanceStep) {
    p.name == s.name && (p.key == AnyKey || p.key == Exactly(s.key))
  }

  /** The first steps of `m` are an instance of `p`. */
  predicate AdmitsPrefix(p: Pattern, m: ModuleInstance) {
    |p| <= |m| && forall i | 0 <= i < |p| :: StepAdmits(p[i], m[i])
  }

  predicate Selects(e: Endpoint, m: ModuleInstance) {
    |Synth(e)| == |m| && AdmitsPrefix(Synth(e), m)
  }

  method SelectsModule(e: Endpoint, addr: ModuleInstance) returns (r: bool)
    ensures r == Selects(e, addr)
  {
    var synthInst := SynthModuleInstance(e);
    if |synthInst| != |addr| {
      return false;
    }
    for i := 0 to |synthInst|
      invariant forall j | 0 <= j < i :: StepAdmits(synthInst[j], addr[j])
    {
      var step := synthInst[i];
      match step.key {
        case AnyKey =>
          if step.name != addr[i].name {
            return false;
          }
        case Exactly(key) =>
          if ModuleInstanceStep(step.name, key) != addr[i] {
            return false;
          }
      }
    }
    return true;
  }

  /** A resource endpoint selects a resource whose module it selects and whose local part it names;
      an instance endpoint selects the resource its instance belongs to. */
  predicate SelectsRes(e: Endpoint, r: AbsResource) {
    match e.subject
    case ResourceSubject(res) => Selects(e, r.path) && r.resource == res.resource
    case InstanceSubject(ri) => Selects(e, r.path) && r.resource == ri.local.resource
    case _ => false
  }

  method SelectsResource(e: Endpoint, addr: AbsResource) returns (r: bool)
    ensures r == SelectsRes(e, addr)
  {
    if e.subject.IsModuleKind() {
      return false;
    }
    var selected := SelectsModule(e, addr.path);
    if !selected {
      return false;
    }
    match e.subject {
      case ResourceSubject(res) => r := addr.resource == res.resource;
      case InstanceSubject(ri) => r := addr.resource == ri.local.resource;
    }
  }

  // ---------------------------------------------------------------- static dependency tests

  predicate StepsUnify(a: PatternStep, b: PatternStep) {
    a.name == b.name && (a.key == AnyKey || b.key == AnyKey || a.key == b.key)
  }

  /** `a` unifies with the first steps of `b`. */
  predicate UnifiesPrefix(a: Pattern, b: Pattern) {
    |a| <= |b| && forall i | 0 <= i < |a| :: StepsUnify(a[i], b[i])
  }

  method ModuleInstanceCanMatch(modA: Pattern, modB: Pattern) returns (r: bool)
    requires |modA| <= |modB|
    ensures r == UnifiesPrefix(modA, modB)
  {
    for i := 0 to |modA|
      invariant forall j | 0 <= j < i :: StepsUnify(modA[j], modB[j])
    {
      var step := modA[i];
      if step.key == AnyKey || modB[i].key == AnyKey {
        if step.name != modB[i].name {
          return false;
        }
      } else if step != modB[i] {
        return false;
      }
    }
    return true;
  }

  predicate CanChainFrom(e: Endpoint, other: Endpoint) {
    var eMod, oMod := Synth(e), Synth(other);
    if |eMod| != |oMod| || !UnifiesPrefix(oMod, eMod) then false else
    match other.subject
    case CallSubject(_) => e.subject.IsModuleKind()
    case ModuleSubject(_) => e.subject.IsModuleKind()
    case ResourceSubject(res) => e.subject.ResourceSubject? && e.subject.res.resource == res.resource
    case InstanceSubject(ri) => e.subject.InstanceSubject? && e.subject.ri.local == ri.local
  }

  predicate NestedWithin(e: Endpoint, other: Endpoint) {
    var eMod, oMod := Synth(e), Synth(other);
    if |oMod| > |eMod| || !UnifiesPrefix(oMod, eMod) then false else
    match other.subject
    case CallSubject(_) => e.subject.CallSubject? ==> |eMod| > |oMod|
    case ModuleSubject(_) => e.subject.IsModuleKind() ==> |eMod| > |oMod|
    case ResourceSubject(res) =>
      |eMod| == |oMod| && e.subject.InstanceSubject? && e.subject.ri.local.resource == res.resource
    case InstanceSubject(_) => false
  }

  // ---------------------------------------------------------------- rewriting

  /** The steps that take the place of the part of `m` the "from" subject matched. */
  function Replacement(m: ModuleInstance, from: Endpoint, to: Endpoint): ModuleInstance
    requires SameStatement(from, to) && from.subject.IsModuleKind()
    requires AdmitsPrefix(Synth(from), m)
  {
    match to.subject
    case ModuleSubject(inst) => inst
    case CallSubject(call) => call.caller + [ModuleInstanceStep(call.name, m[|Synth(from)| - 1].key)]
  }

  /** Where a module instance moves: keep the declaring prefix and the suffix, replace what matched. */
  function ModuleDestination(m: ModuleInstance, from: Endpoint, to: Endpoint): Option<ModuleInstance>
    requires SameStatement(from, to)
  {
    if |m| == 0 || !from.subject.IsModuleKind() || !AdmitsPrefix(Synth(from), m) then None
    else Some(m[..|from.declared|] + Replacement(m, from, to) + m[|Synth(from)|..])
  }

  function ResourceDestination(r: AbsResource, from: Endpoint, to: Endpoint): Option<AbsResource>
    requires SameStatement(from, to)
  {
    if from.subject.IsModuleKind() then
      match ModuleDestination(r.path, from, to)
      case None => None
      case Some(path) => Some(AbsResource(path, r.resource))
    else if from.subject.ResourceSubject? && SelectsRes(from, r) then
      Some(AbsResource(r.path[..|from.declared|] + to.subject.res.path, to.subject.res.resource))
    else
      None
  }

  function InstanceDestination(ri: AbsResourceInstance, from: Endpoint, to: Endpoint): Option<AbsResourceInstance>
    requires SameStatement(from, to)
  {
    match from.subject
    case InstanceSubject(sub) =>
      if Selects(from, ri.path) && ri.local == sub.local then
        Some(AbsResourceInstance(ri.path[..|from.declared|] + to.subject.ri.path, to.subject.ri.local))
      else
        None
    case ResourceSubject(_) =>
      (match ResourceDestination(ri.ContainingResource(), from, to)
       case None => None
       case Some(r) => Some(InstanceOf(r, ri.local.key)))
    case _ =>
      match ModuleDestination(ri.path, from, to)
      case None => None
      case Some(path) => Some(AbsResourceInstance(path, ri.local))
  }

  /** Splits an address into the part belonging to the declaring module and the rest. */
  method MatchModuleInstancePrefix(e: Endpoint, instAddr: ModuleInstance)
    returns (prefix: ModuleInstance, rel: ModuleInstance, ok: bool)
    ensures ok == AdmitsPrefix(AnyInstanceOf(e.declared), instAddr)
    ensures ok ==> |prefix| == |e.declared| && prefix + rel == instAddr
  {
    prefix, rel := [], [];
    if |e.declared| > |instAddr| {
      return prefix, rel, false;
    }
    for i := 0 to |e.declared|
      invariant forall j | 0 <= j < i :: StepAdmits(AnyInstanceOf(e.declared)[j], instAddr[j])
    {
      if e.declared[i] != instAddr[i].name {
        assert !StepAdmits(AnyInstanceOf(e.declared)[i], instAddr[i]);
        return prefix, rel, false;
      }
    }
    return instAddr[..|e.declared|], instAddr[|e.declared|..], true;
  }

  /** The steps of `sub` and the first steps of `rel` agree exactly. */
  method StepsEqual(sub: ModuleInstance, rel: ModuleInstance) returns (r: bool)
    requires |sub| <= |rel|
    ensures r == (sub == rel[..|sub|])
  {
    for i := 0 to |sub|
      invariant sub[..i] == rel[..i]
    {
      if sub[i] != rel[i] {
        assert sub[i] != rel[..|sub|][i];
        return false;
      }
    }
    assert sub[..|sub|] == sub;
    return true;
  }

  /** Matching a whole pattern is matching the declaring part and then the subject. */
  lemma AdmitsSplit(p: Pattern, q: Pattern, m: ModuleInstance)
    ensures AdmitsPrefix(p + q, m) <==> AdmitsPrefix(p, m) && AdmitsPrefix(q, m[|p|..])
  {
    if AdmitsPrefix(p + q, m) {
      forall i | 0 <= i < |p| ensures StepAdmits(p[i], m[i]) {
        assert (p + q)[i] == p[i];
      }
      forall i | 0 <= i < |q| ensures StepAdmits(q[i], m[|p|..][i]) {
        assert (p + q)[|p| + i] == q[i];
      }
    }
    if AdmitsPrefix(p, m) && AdmitsPrefix(q, m[|p|..]) {
      forall i | 0 <= i < |p + q| ensures StepAdmits((p + q)[i], m[i]) {
        if i >= |p| {
          assert StepAdmits(q[i - |p|], m[|p|..][i - |p|]);
        }
      }
    }
  }

  lemma ExactStepsAdmit(sub: ModuleInstance, m: ModuleInstance)
    ensures AdmitsPrefix(ExactSteps(sub), m) <==> |sub| <= |m| && sub == m[..|sub|]
  {
    if AdmitsPrefix(ExactSteps(sub), m) {
      forall i | 0 <= i < |sub| ensures sub[i] == m[..|sub|][i] {
        assert StepAdmits(ExactSteps(sub)[i], m[i]);
      }
    }
    if |sub| <= |m| && sub == m[..|sub|] {
      forall i | 0 <= i < |sub| ensures StepAdmits(ExactSteps(sub)[i], m[i]) {
        assert sub[i] == m[..|sub|][i];
      }
    }
  }

  lemma DropTwice(m: ModuleInstance, a: nat, b: nat)
    requires a + b <= |m|
    ensures m[a..][b..] == m[a + b..]
  {
  }

  /** What follows the steps of a module instance at the front of a relative address. */
  method MatchInstance(sub: ModuleInstance, rel: ModuleInstance) returns (suffix: ModuleInstance, ok: bool)
    ensures ok == AdmitsPrefix(ExactSteps(sub), rel)
    ensures ok ==> suffix == rel[|sub|..]
  {
    ExactStepsAdmit(sub, rel);
    if |sub| > |rel| {
      return [], false;
    }
    var same := StepsEqual(sub, rel);
    if !same {
      return [], false;
    }
    return rel[|sub|..], true;
  }

  /** The key of the step that instantiates a call at the front of a relative address, and what follows it. */
  method MatchCall(
      call: AbsModuleCall, rel: ModuleInstance) returns (key: InstanceKey, suffix: ModuleInstance, ok: bool)
    ensures ok == AdmitsPrefix(SubjectPattern(CallSubject(call)), rel)
    ensures ok ==> key == rel[|call.caller|].key && suffix == rel[|call.caller| + 1..]
  {
    ExactStepsAdmit(call.caller, rel);
    AdmitsSplit(ExactSteps(call.caller), [PatternStep(call.name, AnyKey)], rel);
    if |call.caller| > |rel| - 1 {
      return NoKey, [], false;
    }
    var same := StepsEqual(call.caller, rel);
    if !same {
      return NoKey, [], false;
    }
    var callStep := rel[|call.caller|];
    if callStep.name != call.name {
      assert !StepAdmits(PatternStep(call.name, AnyKey), rel[|call.caller|..][0]);
      return NoKey, [], false;
    }
    return callStep.key, rel[|call.caller| + 1..], true;
  }

  /** The destination in terms of the parts that the code cuts an address into. */
  lemma DestinationParts(m: ModuleInstance, from: Endpoint, to: Endpoint)
    requires SameStatement(from, to) && from.subject.IsModuleKind() && |m| > 0 && AdmitsPrefix(Synth(from), m)
    ensures var n, k := |from.declared|, |SubjectPattern(from.subject)|;
            && n + k <= |m|
            && ModuleDestination(m, from, to) == Some(m[..n] + Replacement(m, from, to) + m[n..][k..])
            && (k > 0 ==> m[|Synth(from)| - 1] == m[n..][k - 1])
  {
    DropTwice(m, |from.declared|, |SubjectPattern(from.subject)|);
  }

  method MoveModule(m: ModuleInstance, from: Endpoint, to: Endpoint) returns (r: Option<ModuleInstance>)
    requires SameStatement(from, to)
    ensures r == ModuleDestination(m, from, to)
  {
    if |m| == 0 {
      return None;
    }
    if !from.subject.IsModuleKind() {
      return None;
    }
    var mPrefix, mRel, matched := MatchModuleInstancePrefix(from, m);
    AdmitsSplit(AnyInstanceOf(from.declared), SubjectPattern(from.subject), m);
    if !matched {
      return None;
    }
    assert mPrefix == m[..|from.declared|] && mRel == m[|from.declared|..];
    var mNewMatch, mSuffix;
    match from.subject {
      case ModuleSubject(sub) =>
        var suffix, ok := MatchInstance(sub, mRel);
        if !ok {
          return None;
        }
        mNewMatch, mSuffix := to.subject.inst, suffix;
      case CallSubject(call) =>
        var key, suffix, ok := MatchCall(call, mRel);
        if !ok {
          return None;
        }
        mNewMatch := to.subject.call.caller + [ModuleInstanceStep(to.subject.call.name, key)];
        mSuffix := suffix;
    }
    DestinationParts(m, from, to);
    var ret: ModuleInstance := [];
    ret := ret + mPrefix;
    assert ret == mPrefix;
    ret := ret + mNewMatch;
    ret := ret + mSuffix;
    return Some(ret);
  }

  /** The part of an address that remains under the declaring module is exactly `sub`. */
  method MatchExactly(e: Endpoint, sub: ModuleInstance, path: ModuleInstance)
    returns (prefix: ModuleInstance, ok: bool)
    requires SubjectPattern(e.subject) == ExactSteps(sub)
    ensures ok == Selects(e, path)
    ensures ok ==> prefix == path[..|e.declared|]
  {
    var mPrefix, mRel, matched := MatchModuleInstancePrefix(e, path);
    AdmitsSplit(AnyInstanceOf(e.declared), ExactSteps(sub), path);
    if !matched {
      return [], false;
    }
    assert mRel == path[|e.declared|..];
    ExactStepsAdmit(sub, mRel);
    if |mRel| != |sub| {
      return [], false;
    }
    var same := StepsEqual(sub, mRel);
    return mPrefix, same;
  }

  method MoveResource(r: AbsResource, from: Endpoint, to: Endpoint) returns (d: Option<AbsResource>)
    requires SameStatement(from, to)
    ensures d == ResourceDestination(r, from, to)
  {
    if from.subject.IsModuleKind() {
      var toMod := MoveModule(r.path, from, to);
      if toMod == None {
        return None;
      }
      return Some(AbsResource(toMod.value, r.resource));
    }
    if !from.subject.ResourceSubject? {
      return None;
    }
    if from.subject.res.resource != r.resource {
      return None;
    }
    var mPrefix, matched := MatchExactly(from, from.subject.res.path, r.path);
    if !matched {
      return None;
    }
    var mNew: ModuleInstance := [];
    if |mPrefix| > 0 || |to.subject.res.path| > 0 {
      mNew := mNew + mPrefix;
      mNew := mNew + to.subject.res.path;
    }
    assert mNew == mPrefix + to.subject.res.path;
    return Some(AbsResource(mNew, to.subject.res.resource));
  }

  method MoveResourceInstance(ri: AbsResourceInstance, from: Endpoint, to: Endpoint)
    returns (d: Option<AbsResourceInstance>)
    requires SameStatement(from, to)
    ensures d == InstanceDestination(ri, from, to)
  {
    if from.subject.IsModuleKind() {
      var toMod := MoveModule(ri.path, from, to);
      if toMod == None {
        return None;
      }
      return Some(AbsResourceInstance(toMod.value, ri.local));
    }
    if from.subject.ResourceSubject? {
      var newResource := MoveResource(ri.ContainingResource(), from, to);
      if newResource == None {
        return None;
      }
      return Some(InstanceOf(newResource.value, ri.local.key));
    }
    if from.subject.ri.local != ri.local {
      return None;
    }
    var mPrefix, matched := MatchExactly(from, from.subject.ri.path, ri.path);
    if !matched {
      return None;
    }
    var mNew: ModuleInstance := [];
    if |mPrefix| > 0 || |to.subject.ri.path| > 0 {
      mNew := mNew + mPrefix;
      mNew := mNew + to.subject.ri.path;
    }
    assert mNew == mPrefix + to.subject.ri.path;
    return Some(AbsResourceInstance(mNew, to.subject.ri.local));
  }
}
