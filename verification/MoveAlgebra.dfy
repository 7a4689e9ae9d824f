/** How the three views of a move endpoint agree: what it selects, what a statement starting
    from it rewrites, and what the static dependency tests say about it.
 */
module MoveAlgebra {
  import opened Addrs
  import opened MoveEndpoints

  // ---------------------------------------------------------------- exactness of the dependency test

  /** The objects a move statement can act on. */
  datatype Object =
    | ModuleObject(m: ModuleInstance)
    | ResourceObject(r: AbsResource)
    | InstanceObject(ri: AbsResourceInstance)

  /** `x` is one of the objects, of its own kind, that the endpoint refers to. */
  predicate Designates(e: Endpoint, x: Object) {
    match x
    case ModuleObject(m) => e.subject.IsModuleKind() && Selects(e, m)
    case ResourceObject(r) => e.subject.ResourceSubject? && SelectsRes(e, r)
    case InstanceObject(ri) =>
      && e.subject.InstanceSubject?
      && SelectsRes(e, ri.ContainingResource())
      && ri.local == e.subject.ri.local
  }

  function ObjectDestination(x: Object, from: Endpoint, to: Endpoint): Option<Object>
    requires SameStatement(from, to)
  {
    match x
    case ModuleObject(m) =>
      (match ModuleDestination(m, from, to) case None => None case Some(d) => Some(ModuleObject(d)))
    case ResourceObject(r) =>
      (match ResourceDestination(r, from, to) case None => None case Some(d) => Some(ResourceObject(d)))
    case InstanceObject(ri) =>
      match InstanceDestination(ri, from, to) case None => None case Some(d) => Some(InstanceObject(d))
  }

  /** The most general common instance of `p` and a pattern `q` unifying with its prefix:
      take the key from whichever side has one. */
  function CommonInstance(p: Pattern, q: Pattern): ModuleInstance
    requires UnifiesPrefix(q, p)
  {
    seq(|p|, i requires 0 <= i < |p| =>
      ModuleInstanceStep(p[i].name,
        if p[i].key.Exactly? then p[i].key.key
        else if i < |q| && q[i].key.Exactly? then q[i].key.key
        else NoKey))
  }

  /** Unification is exact: patterns unify precisely when some address is an instance of both. */
  lemma UnificationExact(p: Pattern, q: Pattern)
    ensures UnifiesPrefix(q, p) <==>
            |q| <= |p| && exists m: ModuleInstance :: |m| == |p| && AdmitsPrefix(p, m) && AdmitsPrefix(q, m)
  {
    if UnifiesPrefix(q, p) {
      var m := CommonInstance(p, q);
      forall i | 0 <= i < |q| ensures StepAdmits(q[i], m[i]) {
        assert StepsUnify(q[i], p[i]);
      }
      assert AdmitsPrefix(p, m) && AdmitsPrefix(q, m);
    }
    if m: ModuleInstance :| |q| <= |p| && |m| == |p| && AdmitsPrefix(p, m) && AdmitsPrefix(q, m) {
      forall i | 0 <= i < |q| ensures StepsUnify(q[i], p[i]) {
        assert StepAdmits(p[i], m[i]) && StepAdmits(q[i], m[i]);
      }
    }
  }

  /** For a module-kind `o` the two static tests together say only that the paths unify. */
  lemma ModuleTestIsUnification(e: Endpoint, o: Endpoint)
    requires o.subject.IsModuleKind()
    ensures (NestedWithin(e, o) || CanChainFrom(e, o)) <==> UnifiesPrefix(Synth(o), Synth(e))
  {
  }

  /** The static dependency test is exact for modules: it holds precisely when some module
      instance selected by `e` would be moved by a statement whose "from" is `o`. */
  lemma ModuleDependencyExact(e: Endpoint, o: Endpoint, to: Endpoint)
    requires o.subject.IsModuleKind() && WellFormed(o) && SameStatement(o, to)
    ensures (NestedWithin(e, o) || CanChainFrom(e, o)) <==>
            exists m: ModuleInstance :: Selects(e, m) && ModuleDestination(m, o, to).Some?
  {
    ModuleTestIsUnification(e, o);
    UnificationExact(Synth(e), Synth(o));
    if UnifiesPrefix(Synth(o), Synth(e)) {
      var m: ModuleInstance :| |m| == |Synth(e)| && AdmitsPrefix(Synth(e), m) && AdmitsPrefix(Synth(o), m);
      assert Selects(e, m) && ModuleDestination(m, o, to).Some?;
    }
    if m: ModuleInstance :| Selects(e, m) && ModuleDestination(m, o, to).Some? {
      assert |m| == |Synth(e)| && AdmitsPrefix(Synth(e), m) && AdmitsPrefix(Synth(o), m);
    }
  }

  /** Two resource-kind endpoints in unifying modules have a common module instance. */
  lemma CommonModule(e: Endpoint, o: Endpoint) returns (m: ModuleInstance)
    requires |Synth(e)| == |Synth(o)| && UnifiesPrefix(Synth(o), Synth(e))
    ensures Selects(e, m) && Selects(o, m)
  {
    UnificationExact(Synth(e), Synth(o));
    m :| |m| == |Synth(e)| && AdmitsPrefix(Synth(e), m) && AdmitsPrefix(Synth(o), m);
  }

  /** Some object of `e`'s own kind is designated by `e` and moved by a statement from `o`. */
  ghost predicate SomeDesignatedMoves(e: Endpoint, o: Endpoint, to: Endpoint)
    requires SameStatement(o, to)
  {
    exists x: Object :: Designates(e, x) && ObjectDestination(x, o, to).Some?
  }

  /** The object of `e`'s kind that lies in a given module instance. */
  function ObjectIn(e: Endpoint, m: ModuleInstance): Object {
    match e.subject
    case ResourceSubject(res) => ResourceObject(AbsResource(m, res.resource))
    case InstanceSubject(ri) => InstanceObject(AbsResourceInstance(m, ri.local))
    case _ => ModuleObject(m)
  }

  /** The static dependency test is exact for every pair of endpoint kinds: `e` is nested within
      or chains from `o` precisely when a statement from `o` would move some object that `e`
      itself refers to. */
  lemma DependencyExact(e: Endpoint, o: Endpoint, to: Endpoint)
    requires WellFormed(o) && SameStatement(o, to)
    ensures (NestedWithin(e, o) || CanChainFrom(e, o)) <==> SomeDesignatedMoves(e, o, to)
  {
    if NestedWithin(e, o) || CanChainFrom(e, o) {
      TestImpliesMove(e, o, to);
    }
    if x: Object :| Designates(e, x) && ObjectDestination(x, o, to).Some? {
      MoveImpliesTest(e, o, to, x);
    }
  }

  lemma TestImpliesMove(e: Endpoint, o: Endpoint, to: Endpoint)
    requires WellFormed(o) && SameStatement(o, to)
    requires NestedWithin(e, o) || CanChainFrom(e, o)
    ensures SomeDesignatedMoves(e, o, to)
  {
    var m: ModuleInstance;
    if o.subject.IsModuleKind() {
      ModuleDependencyExact(e, o, to);
      m :| Selects(e, m) && ModuleDestination(m, o, to).Some?;
    } else {
      m := CommonModule(e, o);
    }
    var x := ObjectIn(e, m);
    assert Designates(e, x) && ObjectDestination(x, o, to).Some?;
  }

  lemma MoveImpliesTest(e: Endpoint, o: Endpoint, to: Endpoint, x: Object)
    requires WellFormed(o) && SameStatement(o, to)
    requires Designates(e, x) && ObjectDestination(x, o, to).Some?
    ensures NestedWithin(e, o) || CanChainFrom(e, o)
  {
    var m := match x case ModuleObject(m) => m case ResourceObject(r) => r.path case InstanceObject(ri) => ri.path;
    assert Selects(e, m);
    assert AdmitsPrefix(Synth(e), m) && AdmitsPrefix(Synth(o), m);
    UnificationExact(Synth(e), Synth(o));
  }

  /** Chaining between two module-kind endpoints is symmetric, and true exactly when some module
      instance is selected by both. */
  lemma ModuleChainExact(e: Endpoint, o: Endpoint)
    requires e.subject.IsModuleKind() && o.subject.IsModuleKind()
    ensures CanChainFrom(e, o) <==> CanChainFrom(o, e)
    ensures CanChainFrom(e, o) <==> exists m: ModuleInstance :: Selects(e, m) && Selects(o, m)
  {
    assert UnifiesPrefix(Synth(o), Synth(e)) && |Synth(e)| == |Synth(o)| ==> UnifiesPrefix(Synth(e), Synth(o));
    assert UnifiesPrefix(Synth(e), Synth(o)) && |Synth(e)| == |Synth(o)| ==> UnifiesPrefix(Synth(o), Synth(e));
    if CanChainFrom(e, o) {
      var m := CommonModule(e, o);
    }
    if m: ModuleInstance :| Selects(e, m) && Selects(o, m) {
      UnificationExact(Synth(e), Synth(o));
    }
  }

  // ---------------------------------------------------------------- moves can be undone

  /** What is put in place matches the "to" subject, whatever follows. */
  lemma ReplacementAdmitted(m: ModuleInstance, from: Endpoint, to: Endpoint, suffix: ModuleInstance)
    requires SameStatement(from, to) && from.subject.IsModuleKind() && AdmitsPrefix(Synth(from), m)
    ensures |SubjectPattern(to.subject)| == |Replacement(m, from, to)|
    ensures AdmitsPrefix(SubjectPattern(to.subject), Replacement(m, from, to) + suffix)
  {
    var rel := Replacement(m, from, to) + suffix;
    match to.subject {
      case ModuleSubject(inst) =>
        ExactStepsAdmit(inst, rel);
      case CallSubject(call) =>
        ExactStepsAdmit(call.caller, rel);
        AdmitsSplit(ExactSteps(call.caller), [PatternStep(call.name, AnyKey)], rel);
    }
  }

  /** What a module subject matched, cut into declaring prefix, match and suffix. */
  lemma DestinationShape(m: ModuleInstance, from: Endpoint, to: Endpoint)
    requires SameStatement(from, to) && WellFormed(to)
    requires ModuleDestination(m, from, to).Some?
    ensures var d := ModuleDestination(m, from, to).value;
            && |d| > 0
            && AdmitsPrefix(Synth(to), d)
            && d[..|to.declared|] == m[..|from.declared|]
            && d[|Synth(to)|..] == m[|Synth(from)|..]
            && (to.subject.CallSubject? ==> d[|Synth(to)| - 1].key == m[|Synth(from)| - 1].key)
  {
    var d := ModuleDestination(m, from, to).value;
    var n := |from.declared|;
    var mid := Replacement(m, from, to);
    assert d == m[..n] + (mid + m[|Synth(from)|..]);
    assert d[n..] == mid + m[|Synth(from)|..];
    AdmitsSplit(AnyInstanceOf(from.declared), SubjectPattern(from.subject), m);
    assert AdmitsPrefix(AnyInstanceOf(to.declared), d) by {
      forall i | 0 <= i < n ensures StepAdmits(AnyInstanceOf(to.declared)[i], d[i]) {
        assert StepAdmits(AnyInstanceOf(from.declared)[i], m[i]);
      }
    }
    ReplacementAdmitted(m, from, to, m[|Synth(from)|..]);
    AdmitsSplit(AnyInstanceOf(to.declared), SubjectPattern(to.subject), d);
  }

  /** A subject determines the steps it matches, except for the key of a call. */
  lemma SubjectMatched(s: Moveable, rel: ModuleInstance)
    requires s.IsModuleKind() && AdmitsPrefix(SubjectPattern(s), rel)
    ensures var n := |SubjectPattern(s)|;
            rel[..n] == match s
                        case ModuleSubject(inst) => inst
                        case CallSubject(call) => call.caller + [ModuleInstanceStep(call.name, rel[n - 1].key)]
  {
    match s {
      case ModuleSubject(inst) =>
        ExactStepsAdmit(inst, rel);
      case CallSubject(call) =>
        AdmitsSplit(ExactSteps(call.caller), [PatternStep(call.name, AnyKey)], rel);
        ExactStepsAdmit(call.caller, rel);
        var n := |call.caller|;
        assert StepAdmits(PatternStep(call.name, AnyKey), rel[n..][0]);
        assert rel[..n + 1] == rel[..n] + [rel[n]];
    }
  }

  lemma CutInThree(m: ModuleInstance, n: nat, k: nat)
    requires n + k <= |m|
    ensures m[..n] + m[n..][..k] + m[n + k..] == m
  {
  }

  /** An address is determined by its declaring prefix, its suffix and, for a call, the call's key. */
  lemma ReplacementRestores(m: ModuleInstance, from: Endpoint)
    requires from.subject.IsModuleKind() && AdmitsPrefix(Synth(from), m)
    ensures m == m[..|from.declared|] + Replacement(m, from, from) + m[|Synth(from)|..]
  {
    var n := |from.declared|;
    var k := |SubjectPattern(from.subject)|;
    AdmitsSplit(AnyInstanceOf(from.declared), SubjectPattern(from.subject), m);
    SubjectMatched(from.subject, m[n..]);
    assert Replacement(m, from, from) == m[n..][..k];
    CutInThree(m, n, k);
  }

  /** Moving a module instance back along the same statement restores it. */
  lemma ModuleMoveInvertible(m: ModuleInstance, from: Endpoint, to: Endpoint)
    requires SameStatement(from, to) && WellFormed(to)
    requires ModuleDestination(m, from, to).Some?
    ensures ModuleDestination(ModuleDestination(m, from, to).value, to, from) == Some(m)
  {
    var d := ModuleDestination(m, from, to).value;
    DestinationShape(m, from, to);
    assert Replacement(d, to, from) == Replacement(m, from, from);
    ReplacementRestores(m, from);
  }

  /** A resource-kind endpoint selects exactly a declaring prefix followed by its own relative path. */
  lemma SelectsExactPath(e: Endpoint, sub: ModuleInstance, path: ModuleInstance)
    requires SubjectPattern(e.subject) == ExactSteps(sub)
    ensures Selects(e, path) <==>
            && |path| == |e.declared| + |sub|
            && AdmitsPrefix(AnyInstanceOf(e.declared), path)
            && path == path[..|e.declared|] + sub
  {
    AdmitsSplit(AnyInstanceOf(e.declared), ExactSteps(sub), path);
    if |path| == |e.declared| + |sub| {
      ExactStepsAdmit(sub, path[|e.declared|..]);
      assert path[|e.declared|..][..|sub|] == path[|e.declared|..];
      assert path == path[..|e.declared|] + path[|e.declared|..];
    }
  }

  /** Replacing the relative path keeps an address selected, now by the other endpoint. */
  lemma SelectedAfterReplacement(
      from: Endpoint, to: Endpoint, sub: ModuleInstance, newSub: ModuleInstance, path: ModuleInstance)
    requires from.declared == to.declared
    requires SubjectPattern(from.subject) == ExactSteps(sub) && SubjectPattern(to.subject) == ExactSteps(newSub)
    requires Selects(from, path)
    ensures var d := path[..|from.declared|] + newSub;
            Selects(to, d) && d[..|to.declared|] + sub == path
  {
    var d := path[..|from.declared|] + newSub;
    SelectsExactPath(from, sub, path);
    assert d[..|to.declared|] == path[..|from.declared|];
    forall i | 0 <= i < |to.declared| ensures StepAdmits(AnyInstanceOf(to.declared)[i], d[i]) {
      assert StepAdmits(AnyInstanceOf(from.declared)[i], path[i]);
    }
    SelectsExactPath(to, newSub, d);
  }

  lemma ResourceMoveInvertible(r: AbsResource, from: Endpoint, to: Endpoint)
    requires SameStatement(from, to) && WellFormed(to)
    requires ResourceDestination(r, from, to).Some?
    ensures ResourceDestination(ResourceDestination(r, from, to).value, to, from) == Some(r)
  {
    if from.subject.IsModuleKind() {
      ModuleMoveInvertible(r.path, from, to);
    } else {
      SelectedAfterReplacement(from, to, from.subject.res.path, to.subject.res.path, r.path);
    }
  }

  lemma InstanceMoveInvertible(ri: AbsResourceInstance, from: Endpoint, to: Endpoint)
    requires SameStatement(from, to) && WellFormed(to)
    requires InstanceDestination(ri, from, to).Some?
    ensures InstanceDestination(InstanceDestination(ri, from, to).value, to, from) == Some(ri)
  {
    match from.subject {
      case InstanceSubject(sub) =>
        SelectedAfterReplacement(from, to, sub.path, to.subject.ri.path, ri.path);
      case ResourceSubject(_) =>
        ResourceMoveInvertible(ri.ContainingResource(), from, to);
      case _ =>
        ModuleMoveInvertible(ri.path, from, to);
    }
  }

  /** All three levels at once. */
  lemma MoveInvertible(x: Object, from: Endpoint, to: Endpoint)
    requires SameStatement(from, to) && WellFormed(to)
    requires ObjectDestination(x, from, to).Some?
    ensures ObjectDestination(ObjectDestination(x, from, to).value, to, from) == Some(x)
  {
    match x {
      case ModuleObject(m) => ModuleMoveInvertible(m, from, to);
      case ResourceObject(r) => ResourceMoveInvertible(r, from, to);
      case InstanceObject(ri) => InstanceMoveInvertible(ri, from, to);
    }
  }

  /** The addresses a statement gives to the members of `objects` that it moves. */
  function Rekeyed(objects: set<Object>, from: Endpoint, to: Endpoint): set<Object>
    requires SameStatement(from, to)
  {
    set x | x in objects && ObjectDestination(x, from, to).Some? :: ObjectDestination(x, from, to).value
  }

  function Moved(objects: set<Object>, from: Endpoint, to: Endpoint): set<Object>
    requires SameStatement(from, to)
  {
    set x | x in objects && ObjectDestination(x, from, to).Some?
  }

  /** Rekeying any finite set of addresses by one statement never merges two of them, and rekeying
      by the reversed statement gives back exactly the addresses that moved. */
  lemma {:induction false} RekeyNeverMerges(objects: set<Object>, from: Endpoint, to: Endpoint)
    requires SameStatement(from, to) && WellFormed(from) && WellFormed(to)
    ensures |Rekeyed(objects, from, to)| == |Moved(objects, from, to)|
    ensures Rekeyed(Rekeyed(objects, from, to), to, from) == Moved(objects, from, to)
  {
    var image := Rekeyed(objects, from, to);
    var moved := Moved(objects, from, to);
    assert Rekeyed(image, to, from) == moved by {
      forall x | x in moved ensures x in Rekeyed(image, to, from) {
        MoveInvertible(x, from, to);
        assert ObjectDestination(x, from, to).value in image;
      }
      forall y | y in image && ObjectDestination(y, to, from).Some?
        ensures ObjectDestination(y, to, from).value in moved
      {
        var x :| x in objects && ObjectDestination(x, from, to) == Some(y);
        MoveInvertible(x, from, to);
      }
    }
    ImageSize(objects, from, to);
  }

  lemma {:induction false} ImageSize(objects: set<Object>, from: Endpoint, to: Endpoint)
    requires SameStatement(from, to) && WellFormed(to)
    ensures |Rekeyed(objects, from, to)| == |Moved(objects, from, to)|
  {
    if objects == {} {
      assert Rekeyed(objects, from, to) == {} && Moved(objects, from, to) == {};
    } else {
      var x :| x in objects;
      var rest := objects - {x};
      ImageSize(rest, from, to);
      var d := ObjectDestination(x, from, to);
      if d.None? {
        assert Rekeyed(objects, from, to) == Rekeyed(rest, from, to);
        assert Moved(objects, from, to) == Moved(rest, from, to);
      } else {
        assert Rekeyed(objects, from, to) == Rekeyed(rest, from, to) + {d.value};
        assert Moved(objects, from, to) == Moved(rest, from, to) + {x};
        if d.value in Rekeyed(rest, from, to) {
          var y :| y in rest && ObjectDestination(y, from, to) == d;
          MoveInvertible(x, from, to);
          MoveInvertible(y, from, to);
          assert false;
        }
      }
    }
  }

  // ---------------------------------------------------------------- the levels agree

  /** Under a module or whole-resource statement an instance moves exactly when its resource does,
      to the same place, and keeps its key. */
  lemma LevelsAgree(ri: AbsResourceInstance, from: Endpoint, to: Endpoint)
    requires SameStatement(from, to) && !from.subject.InstanceSubject?
    ensures InstanceDestination(ri, from, to) ==
            match ResourceDestination(ri.ContainingResource(), from, to)
            case None => None
            case Some(r) => Some(InstanceOf(r, ri.local.key))
  {
  }

  /** Every descendant of a moved module moves with it, its own suffix unchanged. */
  lemma DescendantsFollow(m: ModuleInstance, suffix: ModuleInstance, from: Endpoint, to: Endpoint)
    requires SameStatement(from, to)
    requires ModuleDestination(m, from, to).Some?
    ensures ModuleDestination(m + suffix, from, to) == Some(ModuleDestination(m, from, to).value + suffix)
  {
    var p := Synth(from);
    forall i | 0 <= i < |p| ensures StepAdmits(p[i], (m + suffix)[i]) {
      assert StepAdmits(p[i], m[i]);
    }
    assert (m + suffix)[..|from.declared|] == m[..|from.declared|];
    assert (m + suffix)[|p|..] == m[|p|..] + suffix;
    assert Replacement(m + suffix, from, to) == Replacement(m, from, to);
    var kept, mid := m[..|from.declared|], Replacement(m, from, to);
    assert kept + mid + (m[|p|..] + suffix) == kept + mid + m[|p|..] + suffix;
  }

  /** Everything inside a moved module, at any depth, follows it and is otherwise unchanged. */
  lemma ContentsFollow(m: ModuleInstance, suffix: ModuleInstance, local: ResourceInstance, from: Endpoint, to: Endpoint)
    requires SameStatement(from, to)
    requires ModuleDestination(m, from, to).Some?
    ensures var d := ModuleDestination(m, from, to).value + suffix;
            && ResourceDestination(AbsResource(m + suffix, local.resource), from, to) ==
               Some(AbsResource(d, local.resource))
            && InstanceDestination(AbsResourceInstance(m + suffix, local), from, to) ==
               Some(AbsResourceInstance(d, local))
  {
    DescendantsFollow(m, suffix, from, to);
  }

  // ---------------------------------------------------------------- nesting is acyclic

  function KindRank(s: Moveable): nat {
    match s
    case CallSubject(_) => 0
    case ModuleSubject(_) => 1
    case ResourceSubject(_) => 2
    case InstanceSubject(_) => 3
  }

  /** Path length first, then the kind of subject: call, instance, resource, resource instance. */
  function Depth(e: Endpoint): nat {
    4 * |Synth(e)| + KindRank(e.subject)
  }

  lemma NestingDeepens(e: Endpoint, o: Endpoint)
    requires NestedWithin(e, o)
    ensures Depth(o) < Depth(e)
  {
  }

  predicate NestingChain(chain: seq<Endpoint>) {
    forall i | 0 <= i < |chain| - 1 :: NestedWithin(chain[i], chain[i + 1])
  }

  /** However many endpoints are nested one within the next, the chain never comes back. */
  lemma {:induction false} NestingAcyclic(chain: seq<Endpoint>)
    requires |chain| >= 2 && NestingChain(chain)
    ensures Depth(chain[|chain| - 1]) < Depth(chain[0])
    ensures chain[0] != chain[|chain| - 1] && !NestedWithin(chain[|chain| - 1], chain[0])
  {
    NestingDeepens(chain[0], chain[1]);
    if |chain| > 2 {
      var rest := chain[1..];
      forall i | 0 <= i < |rest| - 1 ensures NestedWithin(rest[i], rest[i + 1]) {
        assert NestedWithin(chain[i + 1], chain[i + 2]);
      }
      NestingAcyclic(rest);
    }
    if NestedWithin(chain[|chain| - 1], chain[0]) {
      NestingDeepens(chain[|chain| - 1], chain[0]);
    }
  }

  /** Wildcards make nesting non-transitive, so acyclicity does not follow from irreflexivity. */
  lemma NestingNotTransitive()
    ensures exists a, b, c :: NestedWithin(a, b) && NestedWithin(b, c) && !NestedWithin(a, c)
  {
    var zero, one := ModuleInstanceStep("m", IntKey(0)), ModuleInstanceStep("m", IntKey(1));
    var leaf, mid := ModuleInstanceStep("x", NoKey), ModuleInstanceStep("y", NoKey);
    var a := Endpoint([], ModuleSubject([zero, leaf, mid]));
    var b := Endpoint(["m"], ModuleSubject([leaf]));
    var c := Endpoint([], ModuleSubject([one]));
    assert UnifiesPrefix(Synth(b), Synth(a));
    assert UnifiesPrefix(Synth(c), Synth(b));
    assert !StepsUnify(Synth(c)[0], Synth(a)[0]);
    assert NestedWithin(a, b) && NestedWithin(b, c) && !NestedWithin(a, c);
  }

  /** Nesting composes exactly when the outer endpoint agrees with the inner one at the wildcard steps of the
      endpoint between them; elsewhere it always does. */
  lemma NestingComposes(a: Endpoint, b: Endpoint, c: Endpoint)
    requires NestedWithin(a, b) && NestedWithin(b, c)
    ensures |Synth(c)| <= |Synth(b)| <= |Synth(a)|
    ensures NestedWithin(a, c) <==>
            forall i | 0 <= i < |Synth(c)| && Synth(b)[i].key == AnyKey :: StepsUnify(Synth(c)[i], Synth(a)[i])
  {
    var p, q, r := Synth(a), Synth(b), Synth(c);
    if forall i | 0 <= i < |r| && q[i].key == AnyKey :: StepsUnify(r[i], p[i]) {
      forall i | 0 <= i < |r| ensures StepsUnify(r[i], p[i]) {
        assert StepsUnify(r[i], q[i]) && StepsUnify(q[i], p[i]);
      }
      assert UnifiesPrefix(r, p);
    }
  }
}
