/** Which targets contain which: the `TargetContains` methods of `module_instance.go` and `resource.go`
    on the addresses that target parsing can return.

    The resource cases compare texts. With the injectivity of address texts containment is a partial
    order, and it is precisely inclusion of the resource instances the two targets reach.
 */
module Containment {
  import opened Addrs
  import opened Traversals
  import opened AddressText
  import opened TargetParsing

  /** Step `i` of `m` allows the step at the same place of `to`. A last step without a key stands for
      every instance of its call. */
  predicate StepCovers(m: ModuleInstance, to: ModuleInstance, i: int)
    requires 0 <= i < |m| && i < |to|
  {
    m[i].name == to[i].name && ((i == |m| - 1 && m[i].key == NoKey) || m[i].key == to[i].key)
  }

  predicate Covers(m: ModuleInstance, to: ModuleInstance) {
    |m| <= |to| && forall i | 0 <= i < |m| :: StepCovers(m, to, i)
  }

  /** The scan as the code makes it, step by step with its early exits. */
  method ModuleTargetContains(m: ModuleInstance, to: ModuleInstance) returns (r: bool)
    ensures r == Covers(m, to)
  {
    if |to| < |m| {
      return false;
    }
    for i := 0 to |m|
      invariant forall j | 0 <= j < i :: StepCovers(m, to, j)
    {
      var ourStep, otherStep := m[i], to[i];
      if ourStep.name != otherStep.name {
        assert !StepCovers(m, to, i);
        return false;
      }
      if i == |m| - 1 {
        if ourStep.key == NoKey {
          return true;
        }
      }
      if ourStep.key != otherStep.key {
        assert !StepCovers(m, to, i);
        return false;
      }
    }
    return true;
  }

  predicate TargetContains(a: Target, b: Target, isPrint: char -> bool) {
    match (a, b)
    case (ModuleTarget(m), ModuleTarget(to)) => Covers(m, to)
    case (ModuleTarget(m), ResourceTarget(to)) => Covers(m, to.path)
    case (ModuleTarget(m), InstanceTarget(to)) => Covers(m, to.path)
    case (ResourceTarget(r), ResourceTarget(to)) => AbsResourceText(to, isPrint) == AbsResourceText(r, isPrint)
    case (ResourceTarget(r), InstanceTarget(to)) =>
      AbsResourceText(to.ContainingResource(), isPrint) == AbsResourceText(r, isPrint)
    case (InstanceTarget(ri), InstanceTarget(to)) => AbsInstanceText(to, isPrint) == AbsInstanceText(ri, isPrint)
    case (InstanceTarget(ri), ResourceTarget(to)) => AbsResourceText(to, isPrint) == AbsInstanceText(ri, isPrint)
    case (_, ModuleTarget(_)) => false
  }

  // ---------------------------------------------------------------- module paths

  lemma CoversTransitive(a: ModuleInstance, b: ModuleInstance, c: ModuleInstance)
    requires Covers(a, b) && Covers(b, c)
    ensures Covers(a, c)
  {
    forall i | 0 <= i < |a| ensures StepCovers(a, c, i) {
      assert StepCovers(a, b, i) && StepCovers(b, c, i);
    }
  }

  lemma CoversAntisymmetric(a: ModuleInstance, b: ModuleInstance)
    requires Covers(a, b) && Covers(b, a)
    ensures a == b
  {
    forall i | 0 <= i < |a| ensures a[i] == b[i] {
      assert StepCovers(a, b, i) && StepCovers(b, a, i);
    }
  }

  /** Any instance of the call at the end of a path whose last step has no key, or else the path itself. */
  predicate StandsFor(m: ModuleInstance, inst: ModuleInstance) {
    || inst == m
    || (&& m != [] && m[|m| - 1].key == NoKey && |inst| == |m|
        && inst[..|m| - 1] == m[..|m| - 1] && inst[|m| - 1].name == m[|m| - 1].name)
  }

  /** A module target reaches a path if and only if the path goes on from the module the target stands for. */
  lemma CoversExactly(m: ModuleInstance, to: ModuleInstance)
    ensures Covers(m, to) <==> exists inst, suffix :: StandsFor(m, inst) && to == inst + suffix
  {
    if Covers(m, to) {
      CoveredStandsFor(m, to);
    }
    if inst, suffix :| StandsFor(m, inst) && to == inst + suffix {
      forall i | 0 <= i < |m| ensures StepCovers(m, to, i) {
        assert to[i] == inst[i];
        assert i < |m| - 1 && inst != m ==> m[..|m| - 1][i] == inst[..|m| - 1][i];
      }
    }
  }

  lemma CoveredStandsFor(m: ModuleInstance, to: ModuleInstance)
    requires Covers(m, to)
    ensures StandsFor(m, to[..|m|]) && to == to[..|m|] + to[|m|..]
  {
    if m != [] {
      var k := |m| - 1;
      forall i | 0 <= i < k ensures m[i] == to[i] {
        assert StepCovers(m, to, i);
      }
      assert StepCovers(m, to, k);
      assert to[..|m|][..k] == m[..k];
      assert m == m[..k] + [m[k]] && to[..|m|] == to[..k] + [to[k]];
    }
  }

  // ---------------------------------------------------------------- comparing texts is comparing addresses

  /** Containment with every text comparison replaced by comparison of the addresses themselves. */
  predicate ContainsByAddress(a: Target, b: Target) {
    match (a, b)
    case (ModuleTarget(m), ModuleTarget(to)) => Covers(m, to)
    case (ModuleTarget(m), ResourceTarget(to)) => Covers(m, to.path)
    case (ModuleTarget(m), InstanceTarget(to)) => Covers(m, to.path)
    case (ResourceTarget(r), ResourceTarget(to)) => r == to
    case (ResourceTarget(r), InstanceTarget(to)) => r == to.ContainingResource()
    case (InstanceTarget(ri), InstanceTarget(to)) => ri == to
    case (InstanceTarget(_), ResourceTarget(_)) => false
    case (_, ModuleTarget(_)) => false
  }

  lemma TextContainmentExact(a: Target, b: Target, isPrint: char -> bool)
    requires isPrint('{') && ValidTarget(a) && ValidTarget(b) && InRange(a)
    ensures TargetContains(a, b, isPrint) <==> ContainsByAddress(a, b)
  {
    if TargetContains(a, b, isPrint) {
      match (a, b) {
        case (ResourceTarget(r), ResourceTarget(to)) => AbsResourceTextInjective(r, to, isPrint);
        case (ResourceTarget(r), InstanceTarget(to)) => AbsResourceTextInjective(r, to.ContainingResource(), isPrint);
        case (InstanceTarget(ri), InstanceTarget(to)) => AbsInstanceTextInjective(ri, to, isPrint);
        case (InstanceTarget(ri), ResourceTarget(to)) => KeyedInstanceIsNoResource(ri, to, isPrint);
        case _ =>
      }
    }
  }

  // ---------------------------------------------------------------- a partial order

  lemma ContainsReflexive(a: Target, isPrint: char -> bool)
    ensures TargetContains(a, a, isPrint)
  {
  }

  /** The innermost target may be any instance, keyless ones included. */
  lemma ContainsTransitive(a: Target, b: Target, c: Target, isPrint: char -> bool)
    requires isPrint('{') && ValidTarget(a) && ValidTarget(b) && ValidTarget(c) && InRange(a) && InRange(b)
    requires TargetContains(a, b, isPrint) && TargetContains(b, c, isPrint)
    ensures TargetContains(a, c, isPrint)
  {
    TextContainmentExact(a, b, isPrint);
    TextContainmentExact(b, c, isPrint);
    TextContainmentExact(a, c, isPrint);
    if a.ModuleTarget? && b.ModuleTarget? {
      var path := match c case ModuleTarget(m) => m case ResourceTarget(r) => r.path case InstanceTarget(ri) => ri.path;
      CoversTransitive(a.m, b.m, path);
    }
  }

  lemma ContainsAntisymmetric(a: Target, b: Target, isPrint: char -> bool)
    requires isPrint('{') && ValidTarget(a) && ValidTarget(b) && InRange(a) && InRange(b)
    requires TargetContains(a, b, isPrint) && TargetContains(b, a, isPrint)
    ensures a == b
  {
    TextContainmentExact(a, b, isPrint);
    TextContainmentExact(b, a, isPrint);
    if a.ModuleTarget? && b.ModuleTarget? {
      CoversAntisymmetric(a.m, b.m);
    }
  }

  /** Without the restriction to the parser's range the order breaks: a keyless instance and its
      resource contain each other although they differ. */
  lemma KeylessInstanceIsNotOrdered(r: AbsResource, isPrint: char -> bool)
    ensures var whole, single := ResourceTarget(r), InstanceTarget(InstanceOf(r, NoKey));
            && whole != single
            && TargetContains(whole, single, isPrint) && TargetContains(single, whole, isPrint)
  {
  }

  // ---------------------------------------------------------------- containment is inclusion

  predicate ValidInstance(x: AbsResourceInstance) {
    ValidTarget(InstanceTarget(x))
  }

  /** What a target reaches, said without comparing texts: a module every instance in it or below it, a resource
      its instances, and an instance itself. */
  lemma ReachedExactly(a: Target, x: AbsResourceInstance, isPrint: char -> bool)
    requires isPrint('{') && ValidTarget(a) && InRange(a) && ValidInstance(x)
    ensures TargetContains(a, InstanceTarget(x), isPrint) <==>
            match a
            case ModuleTarget(m) => exists inst, suffix :: StandsFor(m, inst) && x.path == inst + suffix
            case ResourceTarget(r) => x.ContainingResource() == r
            case InstanceTarget(ri) => x == ri
  {
    TextContainmentExact(a, InstanceTarget(x), isPrint);
    if a.ModuleTarget? {
      CoversExactly(a.m, x.path);
    }
  }

  /** Everything that targeting `b` reaches is also reached by targeting `a`. */
  ghost predicate ReachesAll(a: Target, b: Target, isPrint: char -> bool) {
    forall x: AbsResourceInstance | ValidInstance(x) && TargetContains(b, InstanceTarget(x), isPrint) ::
      TargetContains(a, InstanceTarget(x), isPrint)
  }

  /** One target contains another exactly when it reaches every resource instance the other reaches. */
  lemma ContainmentIsInclusion(a: Target, b: Target, isPrint: char -> bool)
    requires isPrint('{') && ValidTarget(a) && ValidTarget(b) && InRange(a) && InRange(b)
    ensures TargetContains(a, b, isPrint) <==> ReachesAll(a, b, isPrint)
  {
    if TargetContains(a, b, isPrint) {
      forall x: AbsResourceInstance | ValidInstance(x) && TargetContains(b, InstanceTarget(x), isPrint)
        ensures TargetContains(a, InstanceTarget(x), isPrint)
      {
        ContainsTransitive(a, b, InstanceTarget(x), isPrint);
      }
    }
    if ReachesAll(a, b, isPrint) {
      InclusionImpliesContains(a, b, isPrint);
    }
  }

  lemma InclusionImpliesContains(a: Target, b: Target, isPrint: char -> bool)
    requires isPrint('{') && ValidTarget(a) && ValidTarget(b) && InRange(a) && InRange(b)
    requires ReachesAll(a, b, isPrint)
    ensures TargetContains(a, b, isPrint)
  {
    match b {
      case ModuleTarget(m) =>
        var one := AbsResourceInstance(m, ResourceInstance(Resource(Managed, "t", "a"), NoKey));
        var two := AbsResourceInstance(m, ResourceInstance(Resource(Managed, "t", "b"), NoKey));
        Reached(a, b, one, isPrint);
        Reached(a, b, two, isPrint);
      case ResourceTarget(r) =>
        Reached(a, b, InstanceOf(r, NoKey), isPrint);
        Reached(a, b, InstanceOf(r, IntKey(0)), isPrint);
        TextContainmentExact(a, b, isPrint);
      case InstanceTarget(ri) =>
        Reached(a, b, ri, isPrint);
    }
  }

  lemma Reached(a: Target, b: Target, x: AbsResourceInstance, isPrint: char -> bool)
    requires isPrint('{') && ValidTarget(a) && ValidInstance(x) && InRange(a)
    requires ReachesAll(a, b, isPrint) && TargetContains(b, InstanceTarget(x), isPrint)
    ensures TargetContains(a, InstanceTarget(x), isPrint) && ContainsByAddress(a, InstanceTarget(x))
  {
    TextContainmentExact(a, InstanceTarget(x), isPrint);
  }
}
