/** What a move statement does to an address, said without cutting it up: an address that is made of an instance of
    the declaring module, the "from" subject and a remainder becomes the same with the "to" subject in place of
    the "from" subject. Nothing else moves.
 */
module MoveMeaning {
  import opened Addrs
  import opened MoveEndpoints
  import opened MoveAlgebra

  /** A module instance is one of the given static module. */
  predicate IsInstanceOf(prefix: ModuleInstance, declared: Module) {
    |prefix| == |declared| && forall i | 0 <= i < |prefix| :: prefix[i].name == declared[i]
  }

  /** The steps that a module subject stands for; a call has an instance for every key. */
  function Steps(s: Moveable, key: InstanceKey): ModuleInstance
    requires s.IsModuleKind()
  {
    match s
    case ModuleSubject(inst) => inst
    case CallSubject(call) => call.caller + [ModuleInstanceStep(call.name, key)]
  }

  predicate ModuleMoves(m: ModuleInstance, d: ModuleInstance, from: Endpoint, to: Endpoint,
                        prefix: ModuleInstance, key: InstanceKey, suffix: ModuleInstance)
    requires from.subject.IsModuleKind() && to.subject.IsModuleKind()
  {
    && IsInstanceOf(prefix, from.declared)
    && m == prefix + Steps(from.subject, key) + suffix
    && d == prefix + Steps(to.subject, key) + suffix
  }

  lemma PrefixAdmitted(prefix: ModuleInstance, declared: Module, rest: ModuleInstance)
    requires IsInstanceOf(prefix, declared)
    ensures AdmitsPrefix(AnyInstanceOf(declared), prefix + rest)
  {
  }

  lemma StepsAdmitted(s: Moveable, key: InstanceKey, suffix: ModuleInstance)
    requires s.IsModuleKind()
    ensures |SubjectPattern(s)| == |Steps(s, key)| && AdmitsPrefix(SubjectPattern(s), Steps(s, key) + suffix)
  {
    var rel := Steps(s, key) + suffix;
    match s {
      case ModuleSubject(inst) =>
        ExactStepsAdmit(inst, rel);
      case CallSubject(call) =>
        ExactStepsAdmit(call.caller, rel);
        AdmitsSplit(ExactSteps(call.caller), [PatternStep(call.name, AnyKey)], rel);
    }
  }

  lemma Cut(a: ModuleInstance, b: ModuleInstance, c: ModuleInstance)
    ensures var m := a + b + c;
            && m[..|a|] == a && m[|a|..] == b + c && m[|a| + |b|..] == c
            && (b != [] ==> m[|a| + |b| - 1] == b[|b| - 1])
  {
  }

  /** An address of the right shape moves as said. */
  lemma MovesAsSaid(from: Endpoint, to: Endpoint, prefix: ModuleInstance, key: InstanceKey, suffix: ModuleInstance)
    requires SameStatement(from, to) && WellFormed(from) && from.subject.IsModuleKind()
    requires IsInstanceOf(prefix, from.declared)
    ensures ModuleDestination(prefix + Steps(from.subject, key) + suffix, from, to) ==
            Some(prefix + Steps(to.subject, key) + suffix)
  {
    var steps := Steps(from.subject, key);
    var m := prefix + steps + suffix;
    Cut(prefix, steps, suffix);
    PrefixAdmitted(prefix, from.declared, steps + suffix);
    assert m == prefix + (steps + suffix);
    StepsAdmitted(from.subject, key, suffix);
    AdmitsSplit(AnyInstanceOf(from.declared), SubjectPattern(from.subject), m);
    assert Replacement(m, from, to) == Steps(to.subject, key);
  }

  lemma MovedParts(m: ModuleInstance, d: ModuleInstance, from: Endpoint, to: Endpoint)
    returns (prefix: ModuleInstance, key: InstanceKey, suffix: ModuleInstance)
    requires SameStatement(from, to) && WellFormed(from) && ModuleDestination(m, from, to) == Some(d)
    ensures ModuleMoves(m, d, from, to, prefix, key, suffix)
  {
    var n, k := |from.declared|, |Synth(from)|;
    prefix, key, suffix := m[..n], m[k - 1].key, m[k..];
    AdmitsSplit(AnyInstanceOf(from.declared), SubjectPattern(from.subject), m);
    InstancePrefix(from.declared, m);
    ReplacementRestores(m, from);
    assert Replacement(m, from, from) == Steps(from.subject, key);
    assert Replacement(m, from, to) == Steps(to.subject, key);
  }

  lemma InstancePrefix(declared: Module, m: ModuleInstance)
    requires AdmitsPrefix(AnyInstanceOf(declared), m)
    ensures IsInstanceOf(m[..|declared|], declared)
  {
    forall i | 0 <= i < |declared| ensures m[i].name == declared[i] {
      assert StepAdmits(AnyInstanceOf(declared)[i], m[i]);
    }
  }

  /** A module instance moves if and only if it consists of an instance of the declaring module, an instance of the
      "from" subject and a remainder; the "to" subject takes the place of the "from" subject. A statement about
      resources moves no module. */
  lemma ModuleMoveExactly(m: ModuleInstance, d: ModuleInstance, from: Endpoint, to: Endpoint)
    requires SameStatement(from, to) && WellFormed(from)
    ensures !from.subject.IsModuleKind() ==> ModuleDestination(m, from, to) == None
    ensures from.subject.IsModuleKind() ==>
              (ModuleDestination(m, from, to) == Some(d) <==>
               exists prefix, key, suffix :: ModuleMoves(m, d, from, to, prefix, key, suffix))
  {
    if ModuleDestination(m, from, to) == Some(d) {
      var prefix, key, suffix := MovedParts(m, d, from, to);
    }
    if from.subject.IsModuleKind() {
      if prefix, key, suffix :| ModuleMoves(m, d, from, to, prefix, key, suffix) {
        MovesAsSaid(from, to, prefix, key, suffix);
      }
    }
  }

  /** An address selected by a resource or instance subject is an instance of the declaring module followed by the
      subject's own path. */
  lemma SelectedExactly(e: Endpoint, sub: ModuleInstance, path: ModuleInstance)
    requires SubjectPattern(e.subject) == ExactSteps(sub)
    ensures Selects(e, path) <==> exists prefix :: IsInstanceOf(prefix, e.declared) && path == prefix + sub
  {
    SelectsExactPath(e, sub, path);
    if Selects(e, path) {
      var prefix := path[..|e.declared|];
      InstancePrefix(e.declared, path);
      assert IsInstanceOf(prefix, e.declared) && path == prefix + sub;
    }
    if prefix :| IsInstanceOf(prefix, e.declared) && path == prefix + sub {
      PrefixAdmitted(prefix, e.declared, sub);
      assert path[..|e.declared|] == prefix;
    }
  }

  lemma PrefixOf(prefix: ModuleInstance, declared: Module, sub: ModuleInstance)
    requires IsInstanceOf(prefix, declared)
    ensures (prefix + sub)[..|declared|] == prefix
  {
  }

  /** A resource moves with its module, or, under a whole-resource statement, exactly if it is the "from" resource in
      some instance of the declaring module; it then becomes the "to" resource in that same instance. */
  lemma ResourceMoveExactly(r: AbsResource, d: AbsResource, from: Endpoint, to: Endpoint)
    requires SameStatement(from, to) && WellFormed(from)
    ensures from.subject.IsModuleKind() ==>
              (ResourceDestination(r, from, to) == Some(d) <==>
               && d.resource == r.resource
               && exists prefix, key, suffix :: ModuleMoves(r.path, d.path, from, to, prefix, key, suffix))
    ensures from.subject.ResourceSubject? ==>
              (ResourceDestination(r, from, to) == Some(d) <==>
               exists prefix :: && IsInstanceOf(prefix, from.declared)
                                && r == AbsResource(prefix + from.subject.res.path, from.subject.res.resource)
                                && d == AbsResource(prefix + to.subject.res.path, to.subject.res.resource))
    ensures from.subject.InstanceSubject? ==> ResourceDestination(r, from, to) == None
  {
    if from.subject.IsModuleKind() {
      ModuleMoveExactly(r.path, d.path, from, to);
    } else if from.subject.ResourceSubject? {
      SelectedExactly(from, from.subject.res.path, r.path);
      forall prefix | IsInstanceOf(prefix, from.declared) && r.path == prefix + from.subject.res.path
        ensures r.path[..|from.declared|] == prefix
      {
        PrefixOf(prefix, from.declared, from.subject.res.path);
      }
    }
  }

  /** An instance moves with its module or its resource, keeping its key, or, under a statement about one instance,
      exactly if it is the "from" instance in some instance of the declaring module. */
  lemma InstanceMoveExactly(x: AbsResourceInstance, d: AbsResourceInstance, from: Endpoint, to: Endpoint)
    requires SameStatement(from, to) && WellFormed(from)
    ensures !from.subject.InstanceSubject? ==>
              (InstanceDestination(x, from, to) == Some(d) <==>
               && d.local.key == x.local.key
               && ResourceDestination(x.ContainingResource(), from, to) == Some(d.ContainingResource()))
    ensures from.subject.InstanceSubject? ==>
              (InstanceDestination(x, from, to) == Some(d) <==>
               exists prefix :: && IsInstanceOf(prefix, from.declared)
                                && x == AbsResourceInstance(prefix + from.subject.ri.path, from.subject.ri.local)
                                && d == AbsResourceInstance(prefix + to.subject.ri.path, to.subject.ri.local))
  {
    if from.subject.InstanceSubject? {
      SelectedExactly(from, from.subject.ri.path, x.path);
      forall prefix | IsInstanceOf(prefix, from.declared) && x.path == prefix + from.subject.ri.path
        ensures x.path[..|from.declared|] == prefix
      {
        PrefixOf(prefix, from.declared, from.subject.ri.path);
      }
    } else {
      LevelsAgree(x, from, to);
      assert InstanceOf(d.ContainingResource(), d.local.key) == d;
    }
  }
}
