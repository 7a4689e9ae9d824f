/** What the static tests between move statements are for: deciding whether the order of two statements
    matters. `statementDependsOn` in `internal/refactoring/move_execute.go` combines the tests of
    `move_endpoint_module.go`.
 */
module MoveOrder {
  import opened Addrs
  import opened MoveEndpoints
  import opened MoveAlgebra
  import opened MoveExecution
  import UnifyEndpoints

  /** An object lies within what an endpoint refers to: a statement starting there would move it. */
  predicate Within(x: AbsResourceInstance, e: Endpoint) {
    InstanceDestination(x, e, e).Some?
  }

  /** Whether a statement moves an object depends on its "from" alone. */
  lemma WithinIsMoved(x: AbsResourceInstance, from: Endpoint, to: Endpoint)
    requires SameStatement(from, to)
    ensures Within(x, from) <==> InstanceDestination(x, from, to).Some?
  {
  }

  predicate Related(e: Endpoint, o: Endpoint) {
    NestedWithin(e, o) || NestedWithin(o, e) || CanChainFrom(e, o) || CanChainFrom(o, e)
  }

  lemma ChainSymmetric(e: Endpoint, o: Endpoint)
    ensures CanChainFrom(e, o) <==> CanChainFrom(o, e)
  {
    if |Synth(e)| == |Synth(o)| {
      assert UnifiesPrefix(Synth(o), Synth(e)) <==> UnifiesPrefix(Synth(e), Synth(o)) by {
        forall i | 0 <= i < |Synth(e)| ensures StepsUnify(Synth(o)[i], Synth(e)[i]) <==>
          StepsUnify(Synth(e)[i], Synth(o)[i]) {
        }
      }
    }
  }

  /** A common object puts one path pattern in front of the other. */
  lemma CommonObjectUnifies(x: AbsResourceInstance, e: Endpoint, o: Endpoint)
    requires Within(x, e) && Within(x, o) && |Synth(o)| <= |Synth(e)|
    ensures UnifiesPrefix(Synth(o), Synth(e))
  {
    var p := x.path[..|Synth(e)|];
    assert AdmitsPrefix(Synth(e), p) by {
      assert forall i | 0 <= i < |Synth(e)| :: StepAdmits(Synth(e)[i], x.path[i]);
    }
    assert AdmitsPrefix(Synth(o), p) by {
      assert forall i | 0 <= i < |Synth(o)| :: StepAdmits(Synth(o)[i], x.path[i]);
    }
    UnificationExact(Synth(e), Synth(o));
  }

  lemma CommonObjectRelates(x: AbsResourceInstance, e: Endpoint, o: Endpoint)
    requires Within(x, e) && Within(x, o) && |Synth(o)| <= |Synth(e)|
    ensures Related(e, o)
  {
    CommonObjectUnifies(x, e, o);
    if |Synth(e)| == |Synth(o)| {
      CommonObjectUnifies(x, o, e);
    }
  }

  /** The object in a given module instance that an endpoint, and whatever it is nested in, reaches. */
  function ObjectUnder(m: ModuleInstance, e: Endpoint): AbsResourceInstance {
    match e.subject
    case ResourceSubject(res) => AbsResourceInstance(m, ResourceInstance(res.resource, NoKey))
    case InstanceSubject(ri) => AbsResourceInstance(m, ri.local)
    case _ => AbsResourceInstance(m, ResourceInstance(Resource(Managed, "t", "n"), NoKey))
  }

  lemma RelatedHaveCommonObject(e: Endpoint, o: Endpoint) returns (x: AbsResourceInstance)
    requires WellFormed(e) && WellFormed(o) && (NestedWithin(e, o) || CanChainFrom(e, o))
    ensures Within(x, e) && Within(x, o)
  {
    UnificationExact(Synth(e), Synth(o));
    var m: ModuleInstance :| |m| == |Synth(e)| && AdmitsPrefix(Synth(e), m) && AdmitsPrefix(Synth(o), m);
    x := ObjectUnder(m, e);
    assert Selects(e, m);
    assert o.subject.IsModuleKind() || Selects(o, m);
  }

  /** Two endpoints are related by the static tests, in one direction or the other, if and only if some
      resource instance lies within both. */
  lemma RelatedExact(e: Endpoint, o: Endpoint)
    requires WellFormed(e) && WellFormed(o)
    ensures Related(e, o) <==> exists x :: Within(x, e) && Within(x, o)
  {
    if NestedWithin(e, o) || CanChainFrom(e, o) {
      var x := RelatedHaveCommonObject(e, o);
    } else if NestedWithin(o, e) || CanChainFrom(o, e) {
      var x := RelatedHaveCommonObject(o, e);
    }
    if x :| Within(x, e) && Within(x, o) {
      if |Synth(o)| <= |Synth(e)| {
        CommonObjectRelates(x, e, o);
      } else {
        CommonObjectRelates(x, o, e);
      }
    }
  }

  /** Some resource instance lies within both endpoints. */
  ghost predicate Meets(e: Endpoint, o: Endpoint) {
    exists x :: Within(x, e) && Within(x, o)
  }

  /** One endpoint is nested within another if and only if they have an object in common and the first is the
      deeper one. */
  lemma NestedExact(e: Endpoint, o: Endpoint)
    requires WellFormed(e) && WellFormed(o)
    ensures NestedWithin(e, o) <==> Depth(o) < Depth(e) && Meets(e, o)
  {
    RelatedExact(e, o);
    ChainSymmetric(e, o);
    if NestedWithin(e, o) {
      NestingDeepens(e, o);
    }
    if Depth(o) < Depth(e) && Meets(e, o) && NestedWithin(o, e) {
      NestingDeepens(o, e);
    }
  }

  // ---------------------------------------------------------------- dependencies between statements

  /** A module statement that changes only instance keys. Endpoints of one statement have one address type,
      so of the cases in the code only that of two module instances can say yes. */
  predicate IsModuleReIndex(from: Endpoint, to: Endpoint)
    requires from.declared == to.declared
  {
    match (from.subject, to.subject)
    case (CallSubject(call), ModuleSubject(t)) => NamesOf(t) == NamesOf(call.caller) + [call.name]
    case (ModuleSubject(f), CallSubject(call)) => NamesOf(f) == NamesOf(call.caller) + [call.name]
    case (ModuleSubject(f), ModuleSubject(t)) => NamesOf(t) == NamesOf(f)
    case _ => false
  }

  function NamesOf(m: ModuleInstance): Module {
    seq(|m|, i requires 0 <= i < |m| => m[i].name)
  }

  /** The four tests for nesting in which the second statement would have to come first. */
  predicate Nests(a: Statement, b: Statement) {
    || NestedWithin(a.from, b.to) || NestedWithin(a.to, b.to)
    || NestedWithin(b.from, a.from) || NestedWithin(b.to, a.from)
  }

  predicate StatementDependsOn(a: Statement, b: Statement)
    requires a.Valid() && b.Valid()
  {
    if CanChainFrom(a.from, b.to) then true
    else if !Nests(a, b) then false
    else if |a.to.declared| >= |b.to.declared| then true
    else !IsModuleReIndex(a.from, a.to)
  }

  /** The one case in which a nested statement is not made to wait: an outer statement that only re-indexes. */
  predicate Exempt(a: Statement, b: Statement)
    requires a.Valid() && b.Valid()
  {
    |a.to.declared| < |b.to.declared| && IsModuleReIndex(a.from, a.to)
  }

  /** The first statement belongs to a module further out and leaves the names of every module it moves
      unchanged. */
  ghost predicate ReIndexesAround(a: Statement, b: Statement)
    requires a.Valid() && b.Valid()
  {
    && |a.from.declared| < |b.from.declared| && a.from.subject.ModuleSubject?
    && forall m: ModuleInstance, d | ModuleDestination(m, a.from, a.to) == Some(d) :: NamesOf(d) == NamesOf(m)
  }

  /** Which of two statements waits for the other, in terms of the objects they have in common. A statement waits
      for one that ends where it starts; of statements with a common start the outer one waits, and of statements
      with a common end the inner one. One that re-indexes around the other waits only if that other one ends at
      the same modules. */
  lemma DependsExactly(a: Statement, b: Statement)
    requires a.Valid() && b.Valid()
    ensures Exempt(a, b) <==> ReIndexesAround(a, b)
    ensures !ReIndexesAround(a, b) ==>
              (StatementDependsOn(a, b) <==>
               || Meets(a.from, b.to)
               || (Meets(a.from, b.from) && Depth(a.from) < Depth(b.from))
               || (Meets(a.to, b.to) && Depth(b.to) < Depth(a.to)))
    ensures ReIndexesAround(a, b) ==>
              (StatementDependsOn(a, b) <==>
               b.to.subject.IsModuleKind() && exists m: ModuleInstance :: Selects(a.from, m) && Selects(b.to, m))
  {
    ReIndexExactly(a);
    if Exempt(a, b) {
      if b.to.subject.IsModuleKind() {
        ModuleChainExact(a.from, b.to);
      }
    } else {
      RelatedExact(a.from, b.to);
      ChainSymmetric(a.from, b.to);
      NestedExact(a.to, b.to);
      NestedExact(b.from, a.from);
      MeetsSymmetric(a.from, b.from);
    }
  }

  lemma MeetsSymmetric(e: Endpoint, o: Endpoint)
    ensures Meets(e, o) <==> Meets(o, e)
  {
  }

  /** The module instance that an endpoint's pattern gives with every wildcard left keyless. */
  function SomeInstance(e: Endpoint): ModuleInstance {
    seq(|Synth(e)|, i requires 0 <= i < |Synth(e)| =>
      ModuleInstanceStep(Synth(e)[i].name, if Synth(e)[i].key.Exactly? then Synth(e)[i].key.key else NoKey))
  }

  /** A statement is a re-indexing if and only if it is about particular module instances and leaves the names of
      every module it moves unchanged. */
  lemma ReIndexExactly(s: Statement)
    requires s.Valid()
    ensures IsModuleReIndex(s.from, s.to) <==>
            && s.from.subject.ModuleSubject?
            && forall m: ModuleInstance, d | ModuleDestination(m, s.from, s.to) == Some(d) :: NamesOf(d) == NamesOf(m)
  {
    if s.from.subject.ModuleSubject? {
      forall m: ModuleInstance, d | ModuleDestination(m, s.from, s.to) == Some(d)
        ensures NamesOf(d) == NamesOf(m) <==> NamesOf(s.to.subject.inst) == NamesOf(s.from.subject.inst)
      {
        NamesAfter(m, s);
      }
      var m := SomeInstance(s.from);
      assert AdmitsPrefix(Synth(s.from), m);
      assert ModuleDestination(m, s.from, s.to).Some?;
    }
  }

  lemma NamesAfter(m: ModuleInstance, s: Statement)
    requires s.Valid() && s.from.subject.ModuleSubject? && ModuleDestination(m, s.from, s.to).Some?
    ensures NamesOf(ModuleDestination(m, s.from, s.to).value) == NamesOf(m) <==>
            NamesOf(s.to.subject.inst) == NamesOf(s.from.subject.inst)
  {
    var n, f, t := |s.from.declared|, s.from.subject.inst, s.to.subject.inst;
    var d := ModuleDestination(m, s.from, s.to).value;
    ReplacementRestores(m, s.from);
    var kept, rest := m[..n], m[|Synth(s.from)|..];
    assert m == kept + f + rest && d == kept + t + rest;
    NamesOfParts(kept, f, rest);
    NamesOfParts(kept, t, rest);
    if NamesOf(d) == NamesOf(m) {
      assert |NamesOf(d)| == |d| && |NamesOf(m)| == |m|;
      assert NamesOf(t) == NamesOf(d)[n..n + |t|] && NamesOf(f) == NamesOf(m)[n..n + |f|];
    }
  }

  lemma NamesOfParts(a: ModuleInstance, b: ModuleInstance, c: ModuleInstance)
    ensures NamesOf(a + b + c) == NamesOf(a) + NamesOf(b) + NamesOf(c)
  {
  }

  /** The address of an object after one statement. */
  function AddressAfter(x: AbsResourceInstance, s: Statement): AbsResourceInstance
    requires s.Valid()
  {
    match InstanceDestination(x, s.from, s.to)
    case None => x
    case Some(d) => d
  }

  /** An object is at most once affected by two statements whose endpoints are unrelated. */
  lemma UnrelatedAffectOnce(x: AbsResourceInstance, a: Statement, b: Statement)
    requires a.Valid() && b.Valid()
    requires !Related(a.from, b.from) && !Related(a.to, b.from)
    requires InstanceDestination(x, a.from, a.to).Some?
    ensures AddressAfter(x, b) == x && AddressAfter(AddressAfter(x, a), b) == AddressAfter(x, a)
  {
    var y := AddressAfter(x, a);
    InstanceMoveInvertible(x, a.from, a.to);
    WithinIsMoved(x, a.from, a.to);
    WithinIsMoved(y, a.to, a.from);
    WithinIsMoved(x, b.from, b.to);
    WithinIsMoved(y, b.from, b.to);
    RelatedExact(a.from, b.from);
    RelatedExact(a.to, b.from);
  }

  lemma IndependentAreUnrelated(a: Statement, b: Statement)
    requires a.Valid() && b.Valid() && !CanChainFrom(a.from, b.from)
    requires !StatementDependsOn(a, b) && !StatementDependsOn(b, a) && !Exempt(a, b) && !Exempt(b, a)
    ensures !Related(a.from, b.from) && !Related(a.to, b.from) && !Related(a.from, b.to)
  {
    ChainSymmetric(a.from, b.from);
    ChainSymmetric(a.to, b.from);
    ChainSymmetric(a.from, b.to);
  }

  /** Statements that do not depend on each other lead every object to the same address in either order, as
      far as nothing stands in the way. The statements must not both start from one address, and neither
      may be exempt. */
  lemma IndependentAddressesCommute(x: AbsResourceInstance, a: Statement, b: Statement)
    requires a.Valid() && b.Valid() && !CanChainFrom(a.from, b.from)
    requires !StatementDependsOn(a, b) && !StatementDependsOn(b, a) && !Exempt(a, b) && !Exempt(b, a)
    ensures AddressAfter(AddressAfter(x, a), b) == AddressAfter(AddressAfter(x, b), a)
  {
    IndependentAreUnrelated(a, b);
    if InstanceDestination(x, a.from, a.to).Some? {
      UnrelatedAffectOnce(x, a, b);
    } else if InstanceDestination(x, b.from, b.to).Some? {
      assert !Related(b.from, a.from) && !Related(b.to, a.from);
      UnrelatedAffectOnce(x, b, a);
    }
  }

  // ---------------------------------------------------------------- the order of execution

  /** Neither statement starts where the other one ends. */
  predicate Unchained(a: Statement, b: Statement) {
    !Related(a.to, b.from) && !Related(a.from, b.to)
  }

  /** The statements treat alike whatever both of them start from and whatever both of them lead to. */
  ghost predicate Agree(a: Statement, b: Statement)
    requires a.Valid() && b.Valid()
  {
    && (forall x | Within(x, a.from) && Within(x, b.from) :: AddressAfter(x, a) == AddressAfter(x, b))
    && (forall z | Within(z, a.to) && Within(z, b.to) :: AddressAfter(z, Reversed(a)) == AddressAfter(z, Reversed(b)))
  }

  function Reversed(s: Statement): Statement {
    Statement(s.to, s.from)
  }

  /** The two orders of relocating one object by each statement never differ, neither in the state nor in the
      recorded changes, whatever the state holds. */
  ghost predicate RelocationsCommute<V(!new)>(a: Statement, b: Statement)
    requires a.Valid() && b.Valid()
  {
    forall p: Progress<V>, x, y :: Relocate(Relocate(p, a, x), b, y) == Relocate(Relocate(p, b, y), a, x)
  }

  lemma RecordsCommute(
      c: Changes, x: AbsResourceInstance, dx: AbsResourceInstance, y: AbsResourceInstance, dy: AbsResourceInstance)
    requires x != y && x != dy && y != dx && dx != dy
    ensures Recorded(Recorded(c, x, dx), y, dy) == Recorded(Recorded(c, y, dy), x, dx)
  {
  }

  lemma TransfersCommute<V>(
      p: Progress<V>, x: AbsResourceInstance, dx: AbsResourceInstance, y: AbsResourceInstance, dy: AbsResourceInstance)
    requires x in p.state && y in p.state && x != y && x != dy && y != dx && dx != dy
    ensures Transfer(Transfer(p, x, dx), y, dy) == Transfer(Transfer(p, y, dy), x, dx)
  {
    RecordsCommute(p.changes, x, dx, y, dy);
  }

  /** Objects within unrelated endpoints are different. */
  lemma UnrelatedDiffer(x: AbsResourceInstance, e: Endpoint, y: AbsResourceInstance, o: Endpoint)
    requires WellFormed(e) && WellFormed(o) && !Related(e, o) && Within(x, e) && Within(y, o)
    ensures x != y
  {
    RelatedExact(e, o);
  }

  /** An object that moves lies within "from" before and within "to" afterwards. */
  lemma MovesBetween(x: AbsResourceInstance, s: Statement)
    requires s.Valid() && InstanceDestination(x, s.from, s.to).Some?
    ensures Within(x, s.from) && Within(AddressAfter(x, s), s.to)
  {
    InstanceMoveInvertible(x, s.from, s.to);
    WithinIsMoved(x, s.from, s.to);
    WithinIsMoved(AddressAfter(x, s), s.to, s.from);
  }

  /** The statement takes an object to another address. */
  predicate Displaces(s: Statement, x: AbsResourceInstance)
    requires s.Valid()
  {
    InstanceDestination(x, s.from, s.to).Some? && AddressAfter(x, s) != x
  }

  /** Whatever the two statements displace, they agree on a common object, never compete for a destination, and
      never put an object where the other one finds it. */
  ghost predicate Compatible(a: Statement, b: Statement)
    requires a.Valid() && b.Valid()
  {
    forall x, y | Displaces(a, x) && Displaces(b, y) :: CompatibleAt(a, x, b, y)
  }

  predicate CompatibleAt(a: Statement, x: AbsResourceInstance, b: Statement, y: AbsResourceInstance)
    requires a.Valid() && b.Valid()
  {
    && (x == y <==> AddressAfter(x, a) == AddressAfter(y, b))
    && AddressAfter(x, a) != y && AddressAfter(y, b) != x
  }

  /** Only displaced objects are relocated. */
  lemma RelocatesDisplaced<V>(p: Progress<V>, s: Statement, x: AbsResourceInstance)
    requires s.Valid()
    ensures Relocate(p, s, x) ==
            if Displaces(s, x) && x in p.state && AddressAfter(x, s) !in p.state then Transfer(p, x, AddressAfter(x, s))
            else p
  {
  }

  lemma CompatibleCommute<V>(p: Progress<V>, a: Statement, x: AbsResourceInstance, b: Statement, y: AbsResourceInstance)
    requires a.Valid() && b.Valid() && Compatible(a, b)
    ensures Relocate(Relocate(p, a, x), b, y) == Relocate(Relocate(p, b, y), a, x)
  {
    RelocatesDisplaced(p, a, x);
    RelocatesDisplaced(p, b, y);
    RelocatesDisplaced(Relocate(p, a, x), b, y);
    RelocatesDisplaced(Relocate(p, b, y), a, x);
    if Displaces(a, x) && Displaces(b, y) {
      assert CompatibleAt(a, x, b, y);
      if x in p.state && y in p.state && x != y {
        TransfersCommute(p, x, AddressAfter(x, a), y, AddressAfter(y, b));
      }
    }
  }

  /** Of two objects with one free destination, the one relocated first gets it and the other stays. */
  lemma FirstTakesDestination<V>(
      p: Progress<V>, a: Statement, x: AbsResourceInstance, b: Statement,
      y: AbsResourceInstance, z: AbsResourceInstance)
    requires a.Valid() && b.Valid() && x in p.state && y in p.state && z !in p.state && x != y
    requires InstanceDestination(x, a.from, a.to) == Some(z) && InstanceDestination(y, b.from, b.to) == Some(z)
    ensures var q := Relocate(Relocate(p, a, x), b, y).state; x !in q && y in q
  {
  }

  /** An object within "to" is the destination of one within "from". */
  lemma Origin(z: AbsResourceInstance, s: Statement) returns (x: AbsResourceInstance)
    requires s.Valid() && Within(z, s.to)
    ensures x == AddressAfter(z, Reversed(s)) && Within(x, s.from) && InstanceDestination(x, s.from, s.to) == Some(z)
  {
    var back := Reversed(s);
    WithinIsMoved(z, s.to, s.from);
    MovesBetween(z, back);
    InstanceMoveInvertible(z, s.to, s.from);
    x := AddressAfter(z, back);
  }

  /** One statement puts an object where the other one finds it. */
  lemma ChainClashes<V>(a: Statement, x: AbsResourceInstance, b: Statement, y: AbsResourceInstance, v: V)
    returns (p: Progress<V>)
    requires a.Valid() && b.Valid() && Displaces(a, x) && Displaces(b, y) && AddressAfter(x, a) == y
    ensures Relocate(Relocate(p, a, x), b, y) != Relocate(Relocate(p, b, y), a, x)
  {
    p := Progress(map[x := v], map[]);
    assert Relocate(Relocate(p, a, x), b, y).state.Keys == {AddressAfter(y, b)};
    assert Relocate(Relocate(p, b, y), a, x).state.Keys == {y};
  }

  /** With different destinations for a common object, it goes where the first statement takes it. */
  lemma CommonStartClashes<V>(a: Statement, b: Statement, x: AbsResourceInstance, v: V) returns (p: Progress<V>)
    requires a.Valid() && b.Valid() && Displaces(a, x) && Displaces(b, x) && AddressAfter(x, a) != AddressAfter(x, b)
    ensures Relocate(Relocate(p, a, x), b, x) != Relocate(Relocate(p, b, x), a, x)
  {
    p := Progress(map[x := v], map[]);
    assert Relocate(Relocate(p, a, x), b, x).state.Keys == {AddressAfter(x, a)};
    assert Relocate(Relocate(p, b, x), a, x).state.Keys == {AddressAfter(x, b)};
  }

  lemma IncompatibleClashes<V>(a: Statement, x: AbsResourceInstance, b: Statement, y: AbsResourceInstance, v: V)
    returns (p: Progress<V>)
    requires a.Valid() && b.Valid() && Displaces(a, x) && Displaces(b, y) && !CompatibleAt(a, x, b, y)
    ensures Relocate(Relocate(p, a, x), b, y) != Relocate(Relocate(p, b, y), a, x)
  {
    if AddressAfter(x, a) == y {
      p := ChainClashes(a, x, b, y, v);
    } else if AddressAfter(y, b) == x {
      p := ChainClashes(b, y, a, x, v);
    } else if x == y {
      p := CommonStartClashes(a, b, x, v);
    } else {
      p := Progress(map[x := v, y := v], map[]);
      FirstTakesDestination(p, a, x, b, y, AddressAfter(x, a));
      FirstTakesDestination(p, b, y, a, x, AddressAfter(x, a));
    }
  }

  /** For any two statements the order of execution is immaterial if and only if they are compatible. */
  lemma CommuteExactlyWhenCompatible<V(!new)>(a: Statement, b: Statement, v: V)
    requires a.Valid() && b.Valid()
    ensures RelocationsCommute<V>(a, b) <==> Compatible(a, b)
  {
    if Compatible(a, b) {
      forall p: Progress<V>, x, y ensures Relocate(Relocate(p, a, x), b, y) == Relocate(Relocate(p, b, y), a, x) {
        CompatibleCommute(p, a, x, b, y);
      }
    } else {
      var x, y :| Displaces(a, x) && Displaces(b, y) && !CompatibleAt(a, x, b, y);
      var p := IncompatibleClashes(a, x, b, y, v);
    }
  }

  // ---------------------------------------------------------------- compatibility read off the endpoints

  /** Statements that agree give two objects one destination only if they are one object. */
  lemma AgreeingDestinations(a: Statement, x: AbsResourceInstance, b: Statement, y: AbsResourceInstance)
    requires a.Valid() && b.Valid() && Agree(a, b) && Displaces(a, x) && Displaces(b, y)
    ensures x == y <==> AddressAfter(x, a) == AddressAfter(y, b)
  {
    MovesBetween(x, a);
    MovesBetween(y, b);
    InstanceMoveInvertible(x, a.from, a.to);
    InstanceMoveInvertible(y, b.from, b.to);
  }

  /** Where statements do not chain into each other, each displaces whatever both of them start from. */
  lemma CommonStartDisplaced(a: Statement, b: Statement, x: AbsResourceInstance)
    requires a.Valid() && b.Valid() && !Related(a.to, b.from) && Within(x, a.from) && Within(x, b.from)
    ensures Displaces(a, x)
  {
    WithinIsMoved(x, a.from, a.to);
    MovesBetween(x, a);
    UnrelatedDiffer(AddressAfter(x, a), a.to, x, b.from);
  }

  /** Of statements that do not chain into each other, compatible ones are those that agree on what they have in
      common. */
  lemma UnchainedCompatible(a: Statement, b: Statement)
    requires a.Valid() && b.Valid() && Unchained(a, b)
    ensures Compatible(a, b) <==> Agree(a, b)
  {
    if Agree(a, b) {
      forall x, y | Displaces(a, x) && Displaces(b, y) ensures CompatibleAt(a, x, b, y) {
        AgreeingDestinations(a, x, b, y);
        MovesBetween(x, a);
        MovesBetween(y, b);
        UnrelatedDiffer(AddressAfter(x, a), a.to, y, b.from);
        UnrelatedDiffer(x, a.from, AddressAfter(y, b), b.to);
      }
    }
    if Compatible(a, b) {
      CompatibleAgree(a, b);
    }
  }

  lemma CompatibleAgree(a: Statement, b: Statement)
    requires a.Valid() && b.Valid() && Unchained(a, b) && Compatible(a, b)
    ensures Agree(a, b)
  {
    forall x | Within(x, a.from) && Within(x, b.from) ensures AddressAfter(x, a) == AddressAfter(x, b) {
      CommonStartDisplaced(a, b, x);
      CommonStartDisplaced(b, a, x);
      assert CompatibleAt(a, x, b, x);
    }
    forall z | Within(z, a.to) && Within(z, b.to)
      ensures AddressAfter(z, Reversed(a)) == AddressAfter(z, Reversed(b))
    {
      var x := Origin(z, a);
      var y := Origin(z, b);
      UnrelatedDiffer(x, a.from, z, b.to);
      UnrelatedDiffer(y, b.from, z, a.to);
      assert CompatibleAt(a, x, b, y);
    }
  }

  /** For statements of which neither starts where the other ends, the order of execution is immaterial if
      and only if they agree on what they have in common. */
  lemma CommuteExactlyWhenAgreeing<V(!new)>(a: Statement, b: Statement, v: V)
    requires a.Valid() && b.Valid() && Unchained(a, b)
    ensures RelocationsCommute<V>(a, b) <==> Agree(a, b)
  {
    UnchainedCompatible(a, b);
    CommuteExactlyWhenCompatible(a, b, v);
  }

  /** If the starts are unrelated, statements agree exactly when their ends are unrelated too. */
  lemma AgreementOfUnrelatedStarts(a: Statement, b: Statement)
    requires a.Valid() && b.Valid() && !Related(a.from, b.from)
    ensures Agree(a, b) <==> !Related(a.to, b.to)
  {
    RelatedExact(a.from, b.from);
    RelatedExact(a.to, b.to);
    if z :| Within(z, a.to) && Within(z, b.to) {
      var x := Origin(z, a);
      var y := Origin(z, b);
      assert x != y;
    }
  }

  /** Neither statement touches anything that the other one does. */
  predicate Disjoint(a: Statement, b: Statement) {
    !Related(a.from, b.from) && !Related(a.to, b.from) && !Related(a.from, b.to) && !Related(a.to, b.to)
  }

  lemma DestinationLength(m: ModuleInstance, s: Statement)
    requires s.Valid() && ModuleDestination(m, s.from, s.to).Some?
    ensures |ModuleDestination(m, s.from, s.to).value| == |m| - |Synth(s.from)| + |Synth(s.to)|
  {
    DestinationShape(m, s.from, s.to);
    var d := ModuleDestination(m, s.from, s.to).value;
    assert |d[|Synth(s.to)|..]| == |m[|Synth(s.from)|..]|;
  }

  /** The end of an address that a resource-kind statement replaces is the whole relative path. */
  lemma SelectedPath(e: Endpoint, sub: ModuleInstance, path: ModuleInstance)
    requires SubjectPattern(e.subject) == ExactSteps(sub) && Selects(e, path)
    ensures path[|e.declared|..] == sub
  {
    SelectsExactPath(e, sub, path);
    assert (path[..|e.declared|] + sub)[|e.declared|..] == sub;
  }

  /** Module endpoints of one length that one module lies within are the same. */
  lemma SameModuleEnds(m: ModuleInstance, s: Statement)
    requires s.Valid() && s.from.subject.IsModuleKind() && |Synth(s.from)| == |Synth(s.to)|
    requires AdmitsPrefix(Synth(s.from), m) && AdmitsPrefix(Synth(s.to), m)
    ensures s.from == s.to
  {
    var n, k := |s.from.declared|, |SubjectPattern(s.from.subject)|;
    AdmitsSplit(AnyInstanceOf(s.from.declared), SubjectPattern(s.from.subject), m);
    AdmitsSplit(AnyInstanceOf(s.to.declared), SubjectPattern(s.to.subject), m);
    SubjectMatched(s.from.subject, m[n..]);
    SubjectMatched(s.to.subject, m[n..]);
    if s.from.subject.CallSubject? {
      LastStepDecides(s.from.subject.call, s.to.subject.call, m[n..][k - 1].key);
    }
  }

  /** If the ends of a statement have an object in common, they are the same or are modules at different depths. */
  lemma OverlappingEnds(s: Statement, z: AbsResourceInstance)
    requires s.Valid() && Within(z, s.from) && Within(z, s.to)
    ensures s.from == s.to || (s.from.subject.IsModuleKind() && |Synth(s.from)| != |Synth(s.to)|)
  {
    match s.from.subject {
      case InstanceSubject(ri) =>
        SelectedPath(s.from, ri.path, z.path);
        SelectedPath(s.to, s.to.subject.ri.path, z.path);
      case ResourceSubject(res) =>
        SelectedPath(s.from, res.path, z.path);
        SelectedPath(s.to, s.to.subject.res.path, z.path);
      case _ =>
        if |Synth(s.from)| == |Synth(s.to)| {
          SameModuleEnds(z.path, s);
        }
    }
  }

  lemma LastStepDecides(a: AbsModuleCall, b: AbsModuleCall, key: InstanceKey)
    requires a.caller + [ModuleInstanceStep(a.name, key)] == b.caller + [ModuleInstanceStep(b.name, key)]
    ensures a == b
  {
    var s := a.caller + [ModuleInstanceStep(a.name, key)];
    assert s[..|s| - 1] == a.caller && s[..|s| - 1] == b.caller;
    assert s[|s| - 1].name == a.name && s[|s| - 1].name == b.name;
  }

  /** A statement displaces everything it starts from, unless it leads from an address to itself. */
  lemma DisplacesAll(s: Statement, x: AbsResourceInstance)
    requires s.Valid() && Within(x, s.from)
    ensures Displaces(s, x) <==> s.from != s.to
  {
    WithinIsMoved(x, s.from, s.to);
    if s.from == s.to {
      StaysPut(s, x);
    } else if AddressAfter(x, s) == x {
      FixedIsIdle(s, x);
    }
  }

  lemma FixedIsIdle(s: Statement, x: AbsResourceInstance)
    requires s.Valid() && InstanceDestination(x, s.from, s.to) == Some(x)
    ensures s.from == s.to
  {
    MovesBetween(x, s);
    OverlappingEnds(s, x);
    if s.from.subject.IsModuleKind() {
      DestinationLength(x.path, s);
    }
  }

  lemma StaysPut(s: Statement, x: AbsResourceInstance)
    requires s.Valid() && Within(x, s.from) && s.from == s.to
    ensures AddressAfter(x, s) == x
  {
    match s.from.subject {
      case InstanceSubject(ri) =>
        SelectsExactPath(s.from, ri.path, x.path);
      case ResourceSubject(res) =>
        SelectsExactPath(s.from, res.path, x.path);
      case _ =>
        ReplacementRestores(x.path, s.from);
    }
  }

  lemma ReIndexKeepsLength(a: Statement)
    requires a.Valid() && IsModuleReIndex(a.from, a.to)
    ensures a.from.subject.ModuleSubject? && |Synth(a.from)| == |Synth(a.to)|
    ensures forall i | 0 <= i < |Synth(a.from)| :: Synth(a.from)[i].name == Synth(a.to)[i].name
  {
    var f, t := a.from.subject.inst, a.to.subject.inst;
    assert |NamesOf(f)| == |f| && |NamesOf(t)| == |t|;
    assert forall i | 0 <= i < |f| :: f[i].name == NamesOf(f)[i] && t[i].name == NamesOf(t)[i];
  }

  /** A statement nested in the start of an exempt one, when neither depends on the other, leads elsewhere. */
  lemma NestedStartsDiverge(a: Statement, b: Statement, x: AbsResourceInstance)
    requires a.Valid() && b.Valid() && !StatementDependsOn(a, b) && !StatementDependsOn(b, a)
    requires NestedWithin(b.from, a.from) && Within(x, a.from) && Within(x, b.from)
    ensures AddressAfter(x, a) != AddressAfter(x, b)
  {
    var z := AddressAfter(x, a);
    if z == AddressAfter(x, b) {
      ReIndexKeepsLength(a);
      WithinIsMoved(x, a.from, a.to);
      WithinIsMoved(x, b.from, b.to);
      MovesBetween(x, a);
      MovesBetween(x, b);
      RelatedExact(a.to, b.to);
      ChainSymmetric(a.to, b.to);
      assert |Synth(b.to)| <= |Synth(a.to)| && b.to.subject.IsModuleKind();
      DestinationLength(x.path, a);
      DestinationLength(x.path, b);
    }
  }

  /** Of statements that do not depend on each other and do not start from one address, no object common to
      both starts is led to one place. */
  lemma CommonStartsDiverge(a: Statement, b: Statement, x: AbsResourceInstance)
    requires a.Valid() && b.Valid() && !CanChainFrom(a.from, b.from)
    requires !StatementDependsOn(a, b) && !StatementDependsOn(b, a) && Within(x, a.from) && Within(x, b.from)
    ensures AddressAfter(x, a) != AddressAfter(x, b)
  {
    RelatedExact(a.from, b.from);
    ChainSymmetric(a.from, b.from);
    if NestedWithin(b.from, a.from) {
      NestedStartsDiverge(a, b, x);
    } else {
      NestedStartsDiverge(b, a, x);
    }
  }

  lemma DisjointCompatible(a: Statement, b: Statement)
    requires a.Valid() && b.Valid() && Disjoint(a, b)
    ensures Compatible(a, b)
  {
    AgreementOfUnrelatedStarts(a, b);
    UnchainedCompatible(a, b);
  }

  lemma IdleCompatible(a: Statement, b: Statement)
    requires a.Valid() && b.Valid() && a.from == a.to
    ensures Compatible(a, b) && Compatible(b, a)
  {
    forall x | Displaces(a, x) ensures false {
      WithinIsMoved(x, a.from, a.to);
      DisplacesAll(a, x);
    }
  }

  /** An object that one statement puts where the other one finds it. */
  lemma ChainIncompatible(a: Statement, b: Statement)
    requires a.Valid() && b.Valid() && a.from != a.to && b.from != b.to && Related(a.to, b.from)
    ensures !Compatible(a, b) && !Compatible(b, a)
  {
    RelatedExact(a.to, b.from);
    var z :| Within(z, a.to) && Within(z, b.from);
    var x := Origin(z, a);
    DisplacesAll(a, x);
    DisplacesAll(b, z);
    assert !CompatibleAt(a, x, b, z) && !CompatibleAt(b, z, a, x);
  }

  lemma RelatedIncompatible(a: Statement, b: Statement)
    requires a.Valid() && b.Valid() && !CanChainFrom(a.from, b.from) && a.from != a.to && b.from != b.to
    requires !StatementDependsOn(a, b) && !StatementDependsOn(b, a) && !Disjoint(a, b)
    ensures !Compatible(a, b)
  {
    if Related(a.from, b.from) {
      RelatedExact(a.from, b.from);
      var x :| Within(x, a.from) && Within(x, b.from);
      CommonStartsDiverge(a, b, x);
      DisplacesAll(a, x);
      DisplacesAll(b, x);
      assert !CompatibleAt(a, x, b, x);
    } else if Related(a.to, b.from) {
      ChainIncompatible(a, b);
    } else if Related(a.from, b.to) {
      ChainIncompatible(b, a);
    } else {
      AgreementOfUnrelatedStarts(a, b);
      UnchainedCompatible(a, b);
    }
  }

  /** Of two statements that do not depend on each other and do not start from one address, the order of
      execution is immaterial if and only if one of them does nothing or they touch nothing in common. Unless
      one of them is exempt, that is: no address is a destination of both. */
  lemma IndependentStatementsCommute<V(!new)>(a: Statement, b: Statement, v: V)
    requires a.Valid() && b.Valid() && !CanChainFrom(a.from, b.from)
    requires !StatementDependsOn(a, b) && !StatementDependsOn(b, a)
    ensures RelocationsCommute<V>(a, b) <==> a.from == a.to || b.from == b.to || Disjoint(a, b)
    ensures !Exempt(a, b) && !Exempt(b, a) ==> (RelocationsCommute<V>(a, b) <==> !CanChainFrom(a.to, b.to))
  {
    CommuteExactlyWhenCompatible(a, b, v);
    if a.from == a.to {
      IdleCompatible(a, b);
    } else if b.from == b.to {
      IdleCompatible(b, a);
    } else if Disjoint(a, b) {
      DisjointCompatible(a, b);
    } else {
      RelatedIncompatible(a, b);
    }
    if !Exempt(a, b) && !Exempt(b, a) {
      IndependentAreUnrelated(a, b);
      ChainSymmetric(a.to, b.to);
      assert Related(a.to, b.to) <==> CanChainFrom(a.to, b.to);
    }
  }

  /** The statement that a `moved` block in a module makes. */
  predicate IsWritten(s: Statement, from: UnifyEndpoints.RelEndpoint, to: UnifyEndpoints.RelEndpoint) {
    UnifyEndpoints.Unify(s.from.declared, from, to) == Some((s.from, s.to))
  }

  /** A keyless managed resource as written in a `moved` block. */
  function WrittenResource(path: ModuleInstance, name: string): UnifyEndpoints.RelEndpoint {
    UnifyEndpoints.RelInstance(AbsResourceInstance(path, ResourceInstance(Resource(Managed, "t", name), NoKey)))
  }

  function ResourceEndpoint(declared: Module, path: ModuleInstance, name: string): Endpoint {
    Endpoint(declared, ResourceSubject(AbsResource(path, Resource(Managed, "t", name))))
  }

  /** The statement `t.x` to `t.z` of the root module, with the given name for `x`, as a `moved` block makes it. */
  function ToZ(name: string): Statement {
    Statement(ResourceEndpoint([], [], name), ResourceEndpoint([], [], "z"))
  }

  lemma ToZIsWritten(name: string)
    ensures ToZ(name).Valid() && IsWritten(ToZ(name), WrittenResource([], name), WrittenResource([], "z"))
  {
  }

  lemma RootResourcesChain(x: string, y: string)
    ensures CanChainFrom(ResourceEndpoint([], [], x), ResourceEndpoint([], [], y)) <==> x == y
    ensures !NestedWithin(ResourceEndpoint([], [], x), ResourceEndpoint([], [], y))
  {
    assert Synth(ResourceEndpoint([], [], x)) == [] && Synth(ResourceEndpoint([], [], y)) == [];
  }

  /** Statements `t.x` to `t.z` and `t.y` to `t.z`: neither depends on the other and nothing else relates them,
      but whichever is executed first blocks the other. */
  lemma SharedDestinationDependsOnOrder()
    ensures var a, b := ToZ("x"), ToZ("y");
            && a.Valid() && b.Valid() && !CanChainFrom(a.from, b.from)
            && !StatementDependsOn(a, b) && !StatementDependsOn(b, a) && !Exempt(a, b) && !Exempt(b, a)
            && !RelocationsCommute<string>(a, b)
  {
    forall u, v | u in {"x", "y", "z"} && v in {"x", "y", "z"}
      ensures CanChainFrom(ResourceEndpoint([], [], u), ResourceEndpoint([], [], v)) <==> u == v
      ensures !NestedWithin(ResourceEndpoint([], [], u), ResourceEndpoint([], [], v))
    {
      RootResourcesChain(u, v);
    }
    assert "x" != "y" && "x" != "z" && "y" != "z";
    IndependentStatementsCommute(ToZ("x"), ToZ("y"), "");
  }

  /** The attempts of one statement at several objects. */
  function AttemptsOf(s: Statement, addrs: seq<AbsResourceInstance>): seq<Attempt> {
    seq(|addrs|, i requires 0 <= i < |addrs| => Attempt(s, addrs[i]))
  }

  lemma {:induction false} PassesBatch<V>(
      p: Progress<V>, a: Statement, xs: seq<AbsResourceInstance>, b: Statement, y: AbsResourceInstance)
    requires a.Valid() && b.Valid() && Compatible(a, b)
    ensures Relocate(Execute(p, AttemptsOf(a, xs)), b, y) == Execute(Relocate(p, b, y), AttemptsOf(a, xs))
  {
    if xs != [] {
      var init := xs[..|xs| - 1];
      assert AttemptsOf(a, xs)[..|xs| - 1] == AttemptsOf(a, init);
      PassesBatch(p, a, init, b, y);
      CompatibleCommute(Execute(p, AttemptsOf(a, init)), a, xs[|xs| - 1], b, y);
    }
  }

  /** Executing one whole statement after the other: over any objects and in any state, the order of
      compatible statements does not show. */
  lemma {:induction false} CompatibleBatchesCommute<V>(
      p: Progress<V>, a: Statement, xs: seq<AbsResourceInstance>, b: Statement, ys: seq<AbsResourceInstance>)
    requires a.Valid() && b.Valid() && Compatible(a, b)
    ensures Execute(Execute(p, AttemptsOf(a, xs)), AttemptsOf(b, ys)) ==
            Execute(Execute(p, AttemptsOf(b, ys)), AttemptsOf(a, xs))
    decreases |ys|
  {
    if ys != [] {
      var init, y := ys[..|ys| - 1], ys[|ys| - 1];
      assert AttemptsOf(b, ys)[..|ys| - 1] == AttemptsOf(b, init);
      CompatibleBatchesCommute(p, a, xs, b, init);
      PassesBatch(Execute(p, AttemptsOf(b, init)), a, xs, b, y);
    }
  }

  /** A statement of an inner module cannot tell the two ends of a re-indexing outside of that module apart. */
  lemma ReIndexAbove(e: Endpoint, a: Statement)
    requires a.Valid() && IsModuleReIndex(a.from, a.to) && |Synth(a.from)| <= |e.declared|
    ensures NestedWithin(e, a.from) <==> NestedWithin(e, a.to)
  {
    ReIndexKeepsLength(a);
    assert forall i | 0 <= i < |e.declared| :: Synth(e)[i].key == AnyKey;
    assert UnifiesPrefix(Synth(a.from), Synth(e)) <==> UnifiesPrefix(Synth(a.to), Synth(e));
  }

  /** The exemption is harmless where the outer statement re-indexes modules outside the one that holds the
      inner statement: the inner statement then depends on the outer one. */
  lemma ExemptionAbove(a: Statement, b: Statement)
    requires a.Valid() && b.Valid() && Exempt(a, b) && Nests(a, b) && |Synth(a.from)| <= |b.from.declared|
    ensures StatementDependsOn(b, a)
  {
    ReIndexKeepsLength(a);
    ReIndexAbove(b.from, a);
    ReIndexAbove(b.to, a);
    assert b.to.subject.IsModuleKind() ==> |Synth(b.to)| > |b.to.declared|;
  }

  /** When the order does matter, a dependency is reported: if one of two statements moves an object to where
      the other one starts, that other statement depends on it, unless exempt; an exempt one that re-indexes
      modules outside the one holding the first statement comes before it. */
  lemma ChainedStatementsDepend(x: AbsResourceInstance, a: Statement, b: Statement)
    requires a.Valid() && b.Valid()
    requires InstanceDestination(x, b.from, b.to).Some? && Within(AddressAfter(x, b), a.from)
    ensures StatementDependsOn(a, b) || Exempt(a, b)
    ensures |Synth(a.from)| <= |b.from.declared| ==> StatementDependsOn(a, b) || StatementDependsOn(b, a)
  {
    var y := AddressAfter(x, b);
    InstanceMoveInvertible(x, b.from, b.to);
    WithinIsMoved(y, b.to, b.from);
    RelatedExact(b.to, a.from);
    ChainSymmetric(a.from, b.to);
    if |Synth(a.from)| <= |b.from.declared| && !StatementDependsOn(a, b) {
      ExemptionAbove(a, b);
    }
  }

  // ---------------------------------------------------------------- an exempt pair that conflicts

  function Keyed(name: string, index: Int64): ModuleInstanceStep {
    ModuleInstanceStep(name, IntKey(index))
  }

  function OuterStatement(): Statement {
    var x := ModuleInstanceStep("x", NoKey);
    Statement(Endpoint([], ModuleSubject([x, Keyed("y", 0)])), Endpoint([], ModuleSubject([x, Keyed("y", 1)])))
  }

  function InnerStatement(): Statement {
    var y := Keyed("y", 0);
    Statement(ResourceEndpoint(["x"], [y], "a"), ResourceEndpoint(["x"], [y], "b"))
  }

  /** Both are statements that `moved` blocks make. */
  lemma ExemptPairIsWritten()
    ensures var x := ModuleInstanceStep("x", NoKey);
            IsWritten(OuterStatement(), UnifyEndpoints.RelModule([x, Keyed("y", 0)]),
                      UnifyEndpoints.RelModule([x, Keyed("y", 1)]))
    ensures var y := Keyed("y", 0);
            IsWritten(InnerStatement(), WrittenResource([y], "a"), WrittenResource([y], "b"))
  {
  }

  lemma ExemptPairIsUnordered()
    ensures var a, b := OuterStatement(), InnerStatement();
            && a.Valid() && b.Valid() && Exempt(a, b) && !CanChainFrom(a.from, b.from)
            && NestedWithin(b.from, a.from) && !StatementDependsOn(a, b) && !StatementDependsOn(b, a)
  {
    var a, b := OuterStatement(), InnerStatement();
    assert UnifiesPrefix(Synth(a.from), Synth(b.from));
    assert !StepsUnify(Synth(a.to)[1], Synth(b.from)[1]);
    assert !StepsUnify(Synth(a.to)[1], Synth(b.to)[1]);
    assert NamesOf(a.from.subject.inst) == NamesOf(a.to.subject.inst);
  }

  /** In the root module `module.x.module.y[0]` to `module.x.module.y[1]`, and in module `x` the statement
      `module.y[0].t.a` to `module.y[0].t.b`: the first is exempt, so neither depends on the other, but what
      becomes of `module.x.module.y[0].t.a` depends on which one is executed first. */
  lemma ExemptPairDependsOnOrder()
    ensures var a, b := OuterStatement(), InnerStatement();
            && a.Valid() && b.Valid() && !CanChainFrom(a.from, b.from)
            && Exempt(a, b) && !StatementDependsOn(a, b) && !StatementDependsOn(b, a)
            && !RelocationsCommute<string>(a, b)
  {
    ExemptPairIsUnordered();
    IndependentStatementsCommute(OuterStatement(), InnerStatement(), "");
  }
}
