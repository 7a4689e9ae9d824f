/** Pairs of move endpoints as written in a `moved` block, and their unification into endpoints of one
    statement: `internal/addrs/move_endpoint.go`.
 */
module UnifyEndpoints {
  import opened Addrs
  import opened Traversals
  import opened TargetParsing
  import opened MoveEndpoints

  /** What parsing a move endpoint yields: a module instance or a resource instance, relative to the
      module it was written in. */
  datatype RelEndpoint = RelModule(inst: ModuleInstance) | RelInstance(ri: AbsResourceInstance)

  function ParseMoveEndpoint(t: Traversal): Option<RelEndpoint> {
    match ModulePrefix(t)
    case None => None
    case Some((path, remain)) =>
      if remain == [] then Some(RelModule(path)) else
      RemainderIsAbsolute(t);
      match ParseResourceInstanceUnderModule(path, Absolute(remain))
      case None => None
      case Some(ri) => Some(RelInstance(ri))
  }

  datatype AddrType = ResourceInstanceType | ResourceType | ModuleInstanceType | ModuleCallType

  /** A keyless last step may as well mean the whole call or resource. */
  function InternalAddrType(e: RelEndpoint): AddrType {
    match e
    case RelModule(inst) =>
      if |inst| > 0 && inst[|inst| - 1].key == NoKey then ModuleCallType else ModuleInstanceType
    case RelInstance(ri) =>
      if ri.local.key == NoKey then ResourceType else ResourceInstanceType
  }

  /** The type both endpoints are turned into: whole objects only if both can be read that way. */
  function WantType(from: AddrType, to: AddrType): AddrType {
    if from == ResourceInstanceType || to == ResourceInstanceType then ResourceInstanceType
    else if from == ResourceType || to == ResourceType then ResourceType
    else if from == ModuleInstanceType || to == ModuleInstanceType then ModuleInstanceType
    else ModuleCallType
  }

  /** The root module has no call, so a call may be wanted only of a module subject that has steps. */
  function Prepare(e: RelEndpoint, declared: Module, want: AddrType): Option<Endpoint>
    requires want == ModuleCallType && e.RelModule? ==> |e.inst| > 0
  {
    match e
    case RelModule(inst) =>
      (match want
       case ModuleInstanceType => Some(Endpoint(declared, ModuleSubject(inst)))
       case ModuleCallType =>
         Some(Endpoint(declared, CallSubject(AbsModuleCall(inst[..|inst| - 1], inst[|inst| - 1].name))))
       case _ => None)
    case RelInstance(ri) =>
      match want
      case ResourceInstanceType => Some(Endpoint(declared, InstanceSubject(ri)))
      case ResourceType => Some(Endpoint(declared, ResourceSubject(ri.ContainingResource())))
      case _ => None
  }

  /** Unifies the endpoints of one statement. That every call of `Prepare` is allowed is part of what is
      verified here: no pair of endpoints reaches a panic. */
  function Unify(declared: Module, relFrom: RelEndpoint, relTo: RelEndpoint): Option<(Endpoint, Endpoint)> {
    var want := WantType(InternalAddrType(relFrom), InternalAddrType(relTo));
    match (Prepare(relFrom, declared, want), Prepare(relTo, declared, want))
    case (Some(from), Some(to)) => Some((from, to))
    case _ => None
  }

  /** Unification fails exactly for a module paired with a resource; otherwise it gives two endpoints of
      one address type and declaring module, so that every rewriting operation accepts them. */
  lemma UnifyTotal(declared: Module, relFrom: RelEndpoint, relTo: RelEndpoint)
    ensures Unify(declared, relFrom, relTo).None? <==> (relFrom.RelModule? <==> relTo.RelInstance?)
    ensures Unify(declared, relFrom, relTo).Some? ==>
              var (from, to) := Unify(declared, relFrom, relTo).value;
              SameStatement(from, to) && from.declared == declared
  {
  }

  predicate Keyless(m: ModuleInstance) {
    |m| > 0 && m[|m| - 1].key == NoKey
  }

  /** A pair of modules is about whole calls exactly if neither has a key at its end, and a pair of resource instances
      about whole resources exactly if neither has a key; otherwise each stands for what was written. */
  lemma UnifiedKinds(
      declared: Module, f: ModuleInstance, t: ModuleInstance, x: AbsResourceInstance, y: AbsResourceInstance)
    ensures Unify(declared, RelModule(f), RelModule(t)) ==
            if Keyless(f) && Keyless(t)
            then Some((Endpoint(declared, CallSubject(AbsModuleCall(f[..|f| - 1], f[|f| - 1].name))),
                       Endpoint(declared, CallSubject(AbsModuleCall(t[..|t| - 1], t[|t| - 1].name)))))
            else Some((Endpoint(declared, ModuleSubject(f)), Endpoint(declared, ModuleSubject(t))))
    ensures Unify(declared, RelInstance(x), RelInstance(y)) ==
            if x.local.key == NoKey && y.local.key == NoKey
            then Some((Endpoint(declared, ResourceSubject(x.ContainingResource())),
                       Endpoint(declared, ResourceSubject(y.ContainingResource()))))
            else Some((Endpoint(declared, InstanceSubject(x)), Endpoint(declared, InstanceSubject(y))))
  {
  }

  /** A relative module written in an endpoint has steps: an absolute traversal is never just the root. */
  lemma ParsedIsWellFormed(t: Traversal)
    requires t != [] && ParseMoveEndpoint(t).Some?
    ensures ParseMoveEndpoint(t).value.RelModule? ==> |ParseMoveEndpoint(t).value.inst| > 0
  {
  }

  /** Whatever is parsed and unified meets the demands of the move operations and their laws. */
  lemma ParsedStatement(declared: Module, tFrom: Traversal, tTo: Traversal)
    requires tFrom != [] && tTo != [] && ParseMoveEndpoint(tFrom).Some? && ParseMoveEndpoint(tTo).Some?
    requires Unify(declared, ParseMoveEndpoint(tFrom).value, ParseMoveEndpoint(tTo).value).Some?
    ensures var (from, to) := Unify(declared, ParseMoveEndpoint(tFrom).value, ParseMoveEndpoint(tTo).value).value;
            SameStatement(from, to) && WellFormed(from) && WellFormed(to)
  {
    ParsedIsWellFormed(tFrom);
    ParsedIsWellFormed(tTo);
    UnifyTotal(declared, ParseMoveEndpoint(tFrom).value, ParseMoveEndpoint(tTo).value);
  }

  /** The module path or object path an endpoint was written with. */
  function WrittenPath(e: RelEndpoint): ModuleInstance {
    match e
    case RelModule(inst) => inst
    case RelInstance(ri) => ri.path
  }

  /** In every instance of the declaring module, the written address is selected by the endpoint. */
  lemma WrittenAddressSelected(e: Endpoint, prefix: ModuleInstance, rel: RelEndpoint, want: AddrType)
    requires want == ModuleCallType && rel.RelModule? ==> |rel.inst| > 0
    requires Prepare(rel, e.declared, want) == Some(e)
    requires AdmitsPrefix(AnyInstanceOf(e.declared), prefix) && |prefix| == |e.declared|
    ensures Selects(e, prefix + WrittenPath(rel))
    ensures (prefix + WrittenPath(rel))[..|e.declared|] == prefix
  {
    var path := prefix + WrittenPath(rel);
    assert path[|e.declared|..] == WrittenPath(rel);
    WrittenPathMatches(e, rel, want);
    forall i | 0 <= i < |e.declared| ensures StepAdmits(AnyInstanceOf(e.declared)[i], path[i]) {
      assert StepAdmits(AnyInstanceOf(e.declared)[i], prefix[i]);
    }
    AdmitsSplit(AnyInstanceOf(e.declared), SubjectPattern(e.subject), path);
  }

  lemma LastStepApart(inst: ModuleInstance)
    requires |inst| > 0 && inst[|inst| - 1].key == NoKey
    ensures inst == inst[..|inst| - 1] + [ModuleInstanceStep(inst[|inst| - 1].name, NoKey)]
  {
  }

  /** The unified statement still does what its author wrote: in every instance of the declaring module
      it moves the address written as "from" to the address written as "to". */
  lemma UnifiedModuleStatementApplies(
      declared: Module, prefix: ModuleInstance, inst: ModuleInstance, newInst: ModuleInstance)
    requires AdmitsPrefix(AnyInstanceOf(declared), prefix) && |prefix| == |declared|
    requires |inst| > 0
    ensures var u := Unify(declared, RelModule(inst), RelModule(newInst));
            u.Some? && ModuleDestination(prefix + inst, u.value.0, u.value.1) == Some(prefix + newInst)
  {
    var (from, to) := Unify(declared, RelModule(inst), RelModule(newInst)).value;
    var want := WantType(InternalAddrType(RelModule(inst)), InternalAddrType(RelModule(newInst)));
    var path := prefix + inst;
    WrittenAddressSelected(from, prefix, RelModule(inst), want);
    if want == ModuleCallType {
      assert path[|Synth(from)| - 1] == inst[|inst| - 1];
      LastStepApart(newInst);
    }
    assert Replacement(path, from, to) == newInst;
    assert path[|Synth(from)|..] == [];
    assert prefix + newInst + [] == prefix + newInst;
  }

  lemma UnifiedInstanceStatementApplies(
      declared: Module, prefix: ModuleInstance, ri: AbsResourceInstance, newRi: AbsResourceInstance)
    requires AdmitsPrefix(AnyInstanceOf(declared), prefix) && |prefix| == |declared|
    ensures var u := Unify(declared, RelInstance(ri), RelInstance(newRi));
            u.Some? && InstanceDestination(AbsResourceInstance(prefix + ri.path, ri.local), u.value.0, u.value.1) ==
                       Some(AbsResourceInstance(prefix + newRi.path, newRi.local))
  {
    var (from, to) := Unify(declared, RelInstance(ri), RelInstance(newRi)).value;
    var want := WantType(InternalAddrType(RelInstance(ri)), InternalAddrType(RelInstance(newRi)));
    WrittenAddressSelected(from, prefix, RelInstance(ri), want);
  }

  lemma WrittenPathMatches(e: Endpoint, rel: RelEndpoint, want: AddrType)
    requires want == ModuleCallType && rel.RelModule? ==> |rel.inst| > 0
    requires Prepare(rel, e.declared, want) == Some(e)
    ensures |SubjectPattern(e.subject)| == |WrittenPath(rel)|
    ensures AdmitsPrefix(SubjectPattern(e.subject), WrittenPath(rel))
  {
    var path := WrittenPath(rel);
    if e.subject.CallSubject? {
      var init, last := path[..|path| - 1], path[|path| - 1];
      ExactStepsAdmit(init, path);
      AdmitsSplit(ExactSteps(init), [PatternStep(last.name, AnyKey)], path);
    } else {
      ExactStepsAdmit(path, path);
    }
  }
}
