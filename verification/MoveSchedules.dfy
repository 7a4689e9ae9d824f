/** Whole statements and whole schedules of them, as `ApplyMoves` in `internal/refactoring/move_execute.go`
    executes them.

    For each statement the code visits the modules of the state, or their resources and instances, in the order
    of a map, and moves what the statement applies to. The statements come in an order that respects the
    dependencies between them.
 */
module MoveSchedules {
  import opened Addrs
  import opened MoveEndpoints
  import opened MoveAlgebra
  import opened MoveExecution
  import opened MoveOrder
  import opened MoveGroups
  import opened Schedules
  import UnifyEndpoints

  // ---------------------------------------------------------------- one statement

  /** A visit of objects, one after the other. */
  ghost function VisitAll<V>(p: Progress<V>, s: Statement, gs: seq<Object>): Progress<V>
    requires s.Valid()
  {
    if gs == [] then p else MoveWhole(VisitAll(p, s, gs[..|gs| - 1]), s, gs[|gs| - 1])
  }

  predicate AllFit(s: Statement, gs: seq<Object>) {
    forall g | g in gs :: Fits(s, g)
  }

  /** The objects are of the statement's kind, and no object of the state that the statement starts from is
      left out. */
  predicate Visits<V>(p: Progress<V>, s: Statement, gs: seq<Object>) {
    AllFit(s, gs) && forall x | x in p.state && Within(x, s.from) :: GroupOf(s.from, x) in gs
  }

  /** An object of the state that the statement starts from, with nothing at the destination of its group. */
  predicate Unblocked<V>(p: Progress<V>, s: Statement, x: AbsResourceInstance)
    requires s.Valid()
  {
    && x in p.state && Within(x, s.from)
    && var d := ObjectDestination(GroupOf(s.from, x), s.from, s.to);
       d.Some? && !Occupied(p, d.value)
  }

  /** The objects that a visit of some groups takes along. */
  ghost predicate Takes<V>(p: Progress<V>, s: Statement, gs: seq<Object>, xs: seq<AbsResourceInstance>)
    requires s.Valid()
  {
    forall x :: x in xs <==> Unblocked(p, s, x) && GroupOf(s.from, x) in gs
  }

  lemma {:induction false} ExecuteConcat<V>(
      p: Progress<V>, s: Statement, xs: seq<AbsResourceInstance>, ys: seq<AbsResourceInstance>)
    requires s.Valid()
    ensures Execute(p, AttemptsOf(s, xs + ys)) == Execute(Execute(p, AttemptsOf(s, xs)), AttemptsOf(s, ys))
    decreases |ys|
  {
    if ys == [] {
      assert xs + ys == xs;
    } else {
      var init := ys[..|ys| - 1];
      assert AttemptsOf(s, ys)[..|ys| - 1] == AttemptsOf(s, init);
      assert AttemptsOf(s, xs + ys)[..|xs + ys| - 1] == AttemptsOf(s, xs + init);
      ExecuteConcat(p, s, xs, init);
    }
  }

  lemma TakenCanMove<V>(p: Progress<V>, s: Statement, gs: seq<Object>, xs: seq<AbsResourceInstance>)
    requires s.Valid() && Takes(p, s, gs, xs)
    ensures CanMove(p, s, xs)
  {
    forall x | x in xs
      ensures x in p.state && InstanceDestination(x, s.from, s.to).Some? && AddressAfter(x, s) !in p.state
    {
      InstancesFollow(s, GroupOf(s.from, x), x);
    }
  }

  /** What is in the state after some objects were taken along: those that stayed, and those that arrived. */
  lemma StateAfter<V>(
      p: Progress<V>, q: Progress<V>, s: Statement, xs: seq<AbsResourceInstance>, y: AbsResourceInstance)
    requires s.Valid() && CanMove(p, s, xs) && HasMoved(p, q, s, xs)
    ensures y in q.state <==> (y in p.state && y !in xs) || (exists x | x in xs :: y == AddressAfter(x, s))
  {
    if y in xs {
      assert Arrived(p, q, y, AddressAfter(y, s));
    } else if x :| x in xs && y == AddressAfter(x, s) {
      assert Arrived(p, q, x, y);
    } else {
      assert !Touches(s, xs, y);
      assert SameAt(p, q, y);
    }
  }

  /** Groups with one destination are one group. */
  lemma SameDestinationSameGroup(s: Statement, g: Object, x: AbsResourceInstance)
    requires s.Valid() && Fits(s, g) && ObjectDestination(g, s.from, s.to).Some?
    requires InstanceDestination(x, s.from, s.to).Some?
    requires Covers(ObjectDestination(g, s.from, s.to).value, AddressAfter(x, s))
    ensures g == GroupOf(s.from, x)
  {
    var h := GroupOf(s.from, x);
    InstancesFollow(s, h, x);
    SameGroup(s, ObjectDestination(g, s.from, s.to).value, ObjectDestination(h, s.from, s.to).value,
      AddressAfter(x, s));
    MoveInvertible(g, s.from, s.to);
    MoveInvertible(h, s.from, s.to);
  }

  lemma SameGroup(s: Statement, g: Object, h: Object, x: AbsResourceInstance)
    requires Fits(s, g) && Fits(s, h) && Covers(g, x) && Covers(h, x)
    ensures g == h
  {
  }

  lemma MemberOfBoth(gs: seq<Object>, g: Object)
    ensures forall h :: h in gs + [g] <==> h in gs || h == g
  {
  }

  /** An object that lies within "to" of a statement with unrelated ends was not taken along. */
  lemma NotTaken<V>(p: Progress<V>, s: Statement, gs: seq<Object>, xs: seq<AbsResourceInstance>, y: AbsResourceInstance)
    requires s.Valid() && !Related(s.from, s.to) && Takes(p, s, gs, xs) && Within(y, s.to)
    ensures y !in xs
  {
    if y in xs {
      UnrelatedDiffer(y, s.from, y, s.to);
    }
  }

  /** Visiting a group that is blocked from the start changes nothing. */
  lemma VisitBlocked<V>(p: Progress<V>, s: Statement, gs: seq<Object>, xs: seq<AbsResourceInstance>, g: Object)
    requires s.Valid() && !Related(s.from, s.to) && Fits(s, g) && Takes(p, s, gs, xs)
    requires ObjectDestination(g, s.from, s.to).Some? && Occupied(p, ObjectDestination(g, s.from, s.to).value)
    ensures MoveWhole(Execute(p, AttemptsOf(s, xs)), s, g) == Execute(p, AttemptsOf(s, xs))
  {
    var q, d := Execute(p, AttemptsOf(s, xs)), ObjectDestination(g, s.from, s.to).value;
    var y :| y in p.state && Covers(d, y);
    TakenCanMove(p, s, gs, xs);
    VisitsMove(p, s, xs);
    CoveredIsDestination(s, g, y);
    NotTaken(p, s, gs, xs, y);
    StateAfter(p, q, s, xs, y);
    assert Occupied(q, d);
  }

  /** What a group that can move holds after others were taken along: what it held, unless it was among them. */
  lemma HeldAfter<V>(
      p: Progress<V>, s: Statement, gs: seq<Object>, xs: seq<AbsResourceInstance>, g: Object, u: AbsResourceInstance)
    requires s.Valid() && !Related(s.from, s.to) && Fits(s, g) && Takes(p, s, gs, xs) && Covers(g, u)
    requires ObjectDestination(g, s.from, s.to).Some? && !Occupied(p, ObjectDestination(g, s.from, s.to).value)
    ensures Within(u, s.from) && GroupOf(s.from, u) == g
    ensures u in Execute(p, AttemptsOf(s, xs)).state <==> u in p.state && g !in gs
  {
    var q := Execute(p, AttemptsOf(s, xs));
    GroupIsDetermined(s, g, u);
    InstancesFollow(s, g, u);
    WithinIsMoved(u, s.from, s.to);
    TakenCanMove(p, s, gs, xs);
    VisitsMove(p, s, xs);
    StateAfter(p, q, s, xs, u);
    if x :| x in xs && u == AddressAfter(x, s) {
      MovesBetween(x, s);
      UnrelatedDiffer(u, s.from, u, s.to);
    }
  }

  /** The destination of a group that can move is taken by nothing but that group. */
  lemma FreeAfter<V>(p: Progress<V>, s: Statement, gs: seq<Object>, xs: seq<AbsResourceInstance>, g: Object)
    requires s.Valid() && !Related(s.from, s.to) && Fits(s, g) && Takes(p, s, gs, xs) && g !in gs
    requires ObjectDestination(g, s.from, s.to).Some? && !Occupied(p, ObjectDestination(g, s.from, s.to).value)
    ensures !Occupied(Execute(p, AttemptsOf(s, xs)), ObjectDestination(g, s.from, s.to).value)
  {
    var q, d := Execute(p, AttemptsOf(s, xs)), ObjectDestination(g, s.from, s.to).value;
    TakenCanMove(p, s, gs, xs);
    VisitsMove(p, s, xs);
    if y :| y in q.state && Covers(d, y) {
      StateAfter(p, q, s, xs, y);
      var x :| x in xs && y == AddressAfter(x, s);
      SameDestinationSameGroup(s, g, x);
    }
  }

  lemma VisitFresh<V>(p: Progress<V>, s: Statement, gs: seq<Object>, xs: seq<AbsResourceInstance>, g: Object)
    returns (ys: seq<AbsResourceInstance>)
    requires s.Valid() && !Related(s.from, s.to) && Fits(s, g) && Takes(p, s, gs, xs) && g !in gs
    requires ObjectDestination(g, s.from, s.to).Some? && !Occupied(p, ObjectDestination(g, s.from, s.to).value)
    ensures MoveWhole(Execute(p, AttemptsOf(s, xs)), s, g) == Execute(p, AttemptsOf(s, ys))
    ensures Takes(p, s, gs + [g], ys)
  {
    var q := Execute(p, AttemptsOf(s, xs));
    var more := Instances(q, g);
    FreeAfter(p, s, gs, xs, g);
    ExecuteConcat(p, s, xs, more);
    ys := xs + more;
    MemberOfBoth(gs, g);
    forall x ensures x in ys <==> Unblocked(p, s, x) && GroupOf(s.from, x) in gs + [g] {
      GroupIsDetermined(s, g, x);
      if Covers(g, x) {
        HeldAfter(p, s, gs, xs, g, x);
      }
    }
  }

  /** One more visit takes along the objects of the visited group, if it can move and was not visited before. */
  lemma VisitNext<V>(p: Progress<V>, s: Statement, gs: seq<Object>, xs: seq<AbsResourceInstance>, g: Object)
    returns (ys: seq<AbsResourceInstance>)
    requires s.Valid() && !Related(s.from, s.to) && Fits(s, g) && Takes(p, s, gs, xs)
    ensures MoveWhole(Execute(p, AttemptsOf(s, xs)), s, g) == Execute(p, AttemptsOf(s, ys))
    ensures Takes(p, s, gs + [g], ys)
  {
    var q, d := Execute(p, AttemptsOf(s, xs)), ObjectDestination(g, s.from, s.to);
    ys := xs;
    MemberOfBoth(gs, g);
    if d.Some? && Occupied(p, d.value) {
      VisitBlocked(p, s, gs, xs, g);
    } else if d.Some? && g !in gs {
      ys := VisitFresh(p, s, gs, xs, g);
    } else if d.Some? {
      forall u | u in q.state ensures !Covers(g, u) {
        if Covers(g, u) {
          HeldAfter(p, s, gs, xs, g, u);
        }
      }
      NothingToMove(q, s, g);
    }
  }

  /** With unrelated ends, visiting objects amounts to relocating exactly the unblocked ones among them. */
  lemma {:induction false} VisitsAreBatch<V>(
      p: Progress<V>, s: Statement, gs: seq<Object>) returns (xs: seq<AbsResourceInstance>)
    requires s.Valid() && !Related(s.from, s.to) && AllFit(s, gs)
    ensures VisitAll(p, s, gs) == Execute(p, AttemptsOf(s, xs)) && Takes(p, s, gs, xs)
    decreases |gs|
  {
    if gs == [] {
      xs := [];
    } else {
      var init, g := gs[..|gs| - 1], gs[|gs| - 1];
      assert gs == init + [g];
      assert g in gs;
      xs := VisitsAreBatch(p, s, init);
      xs := VisitNext(p, s, init, xs, g);
    }
  }

  /** What becomes of every address when a statement with unrelated ends is executed. */
  lemma StatementOutcome<V>(p: Progress<V>, s: Statement, gs: seq<Object>) returns (xs: seq<AbsResourceInstance>)
    requires s.Valid() && !Related(s.from, s.to) && Visits(p, s, gs)
    ensures forall x :: x in xs <==> Unblocked(p, s, x)
    ensures CanMove(p, s, xs) && HasMoved(p, VisitAll(p, s, gs), s, xs)
    ensures VisitAll(p, s, gs) == Execute(p, AttemptsOf(s, xs))
  {
    xs := VisitsAreBatch(p, s, gs);
    TakenCanMove(p, s, gs, xs);
    VisitsMove(p, s, xs);
  }

  /** The order in which the objects of a state are visited does not show. */
  ghost predicate VisitOrderImmaterial<V(!new)>(s: Statement)
    requires s.Valid()
  {
    forall p: Progress<V>, gs, hs | Visits(p, s, gs) && Visits(p, s, hs) :: VisitAll(p, s, gs) == VisitAll(p, s, hs)
  }

  lemma SameVisits<V>(p: Progress<V>, s: Statement, gs: seq<Object>, hs: seq<Object>)
    requires s.Valid() && !Related(s.from, s.to) && Visits(p, s, gs) && Visits(p, s, hs)
    ensures VisitAll(p, s, gs) == VisitAll(p, s, hs)
  {
    var xs := StatementOutcome(p, s, gs);
    var ys := StatementOutcome(p, s, hs);
    HasMovedUnique(p, VisitAll(p, s, gs), VisitAll(p, s, hs), s, xs, ys);
  }

  lemma {:induction false} IdleVisits<V>(p: Progress<V>, s: Statement, gs: seq<Object>)
    requires s.Valid() && s.from == s.to && AllFit(s, gs)
    ensures VisitAll(p, s, gs) == p
  {
    if gs != [] {
      var g := gs[|gs| - 1];
      assert g in gs;
      IdleVisits(p, s, gs[..|gs| - 1]);
      IdleMovesNothing(p, s, g);
    }
  }

  lemma VisitTwo<V>(p: Progress<V>, s: Statement, g: Object, h: Object)
    requires s.Valid()
    ensures VisitAll(p, s, [g, h]) == MoveWhole(MoveWhole(p, s, g), s, h)
  {
    assert [g, h][..1] == [g] && [g][..0] == [];
    assert VisitAll(p, s, [g]) == MoveWhole(VisitAll(p, s, []), s, g);
  }

  /** Three modules in a row, each of which a statement leads to the next. */
  lemma ThreeInARow(s: Statement)
    returns (x: AbsResourceInstance, z: AbsResourceInstance, w: AbsResourceInstance)
    requires s.Valid() && s.from != s.to && Related(s.from, s.to)
    ensures s.from.subject.IsModuleKind() && Within(x, s.from) && Within(z, s.from)
    ensures InstanceDestination(x, s.from, s.to) == Some(z) && InstanceDestination(z, s.from, s.to) == Some(w)
    ensures |x.path| != |z.path| && |z.path| != |w.path| && |x.path| != |w.path|
  {
    RelatedExact(s.from, s.to);
    z :| Within(z, s.from) && Within(z, s.to);
    x := Origin(z, s);
    WithinIsMoved(z, s.from, s.to);
    w := AddressAfter(z, s);
    OverlappingEnds(s, z);
    DestinationLength(x.path, s);
    DestinationLength(z.path, s);
  }

  /** A module with one object in the state moves if there is nothing at its destination. */
  lemma ModuleMoves<V>(p: Progress<V>, s: Statement, x: AbsResourceInstance, z: AbsResourceInstance)
    requires s.Valid() && s.from.subject.IsModuleKind() && InstanceDestination(x, s.from, s.to) == Some(z) && x != z
    requires x in p.state && (forall u | u in p.state :: u.path != z.path && (u.path == x.path ==> u == x))
    ensures MoveWhole(p, s, ModuleObject(x.path)) == Transfer(p, x, z)
  {
    var g := ModuleObject(x.path);
    InstancesFollow(s, g, x);
    assert ObjectDestination(g, s.from, s.to) == Some(ModuleObject(z.path));
    MovesOne(p, s, g, x);
  }

  /** If the ends of a statement are related, an object that is in the way of another may have left by the time
      the other one is visited, or not. */
  lemma RelatedEndsShowOrder<V>(s: Statement, v: V) returns (p: Progress<V>, gs: seq<Object>, hs: seq<Object>)
    requires s.Valid() && s.from != s.to && Related(s.from, s.to)
    ensures Visits(p, s, gs) && Visits(p, s, hs) && VisitAll(p, s, gs) != VisitAll(p, s, hs)
  {
    var x, z, w := ThreeInARow(s);
    var g, h := ModuleObject(x.path), ModuleObject(z.path);
    p := Progress(map[x := v, z := v], map[]);
    gs, hs := [h, g], [g, h];
    VisitsBoth(p, s, x, z);
    VisitTwo(p, s, h, g);
    VisitTwo(p, s, g, h);
    EitherFirst(p, s, x, z, w);
  }

  lemma VisitsBoth<V>(p: Progress<V>, s: Statement, x: AbsResourceInstance, z: AbsResourceInstance)
    requires s.from.subject.IsModuleKind() && p.state.Keys == {x, z}
    ensures var g, h := ModuleObject(x.path), ModuleObject(z.path); Visits(p, s, [h, g]) && Visits(p, s, [g, h])
  {
    assert forall u | u in p.state :: u == x || u == z;
  }

  lemma EitherFirst<V>(
      p: Progress<V>, s: Statement, x: AbsResourceInstance, z: AbsResourceInstance, w: AbsResourceInstance)
    requires s.Valid() && s.from.subject.IsModuleKind() && p.state.Keys == {x, z}
    requires InstanceDestination(x, s.from, s.to) == Some(z) && InstanceDestination(z, s.from, s.to) == Some(w)
    requires x.path != z.path && z.path != w.path && x.path != w.path
    ensures var g, h := ModuleObject(x.path), ModuleObject(z.path);
            x !in MoveWhole(MoveWhole(p, s, h), s, g).state && x in MoveWhole(MoveWhole(p, s, g), s, h).state
  {
    ModuleMoves(p, s, z, w);
    ModuleMoves(Transfer(p, z, w), s, x, z);
    ModuleWaits(p, s, x, z);
  }

  lemma ModuleWaits<V>(p: Progress<V>, s: Statement, x: AbsResourceInstance, z: AbsResourceInstance)
    requires s.Valid() && s.from.subject.IsModuleKind() && InstanceDestination(x, s.from, s.to) == Some(z)
    requires z in p.state
    ensures MoveWhole(p, s, ModuleObject(x.path)) == p
  {
    assert Covers(ModuleObject(z.path), z);
    assert Occupied(p, ModuleObject(z.path));
  }

  /** The order of visiting is immaterial exactly for statements whose ends are unrelated, and for those that do
      nothing. A module that moves into itself, such as `module.a` to `module.a.module.b`, is the exception. */
  lemma VisitOrderExactly<V(!new)>(s: Statement, v: V)
    requires s.Valid()
    ensures VisitOrderImmaterial<V>(s) <==> s.from == s.to || !Related(s.from, s.to)
  {
    if s.from == s.to || !Related(s.from, s.to) {
      forall p: Progress<V>, gs, hs | Visits(p, s, gs) && Visits(p, s, hs)
        ensures VisitAll(p, s, gs) == VisitAll(p, s, hs)
      {
        if s.from == s.to {
          IdleVisits(p, s, gs);
          IdleVisits(p, s, hs);
        } else {
          SameVisits(p, s, gs, hs);
        }
      }
    } else {
      var p, gs, hs := RelatedEndsShowOrder(s, v);
    }
  }

  /** The statement `module.a` to `module.a.module.b`, as a `moved` block in the root module makes it. */
  function IntoItself(): Statement {
    var a := ModuleInstanceStep("a", NoKey);
    Statement(Endpoint([], CallSubject(AbsModuleCall([], "a"))), Endpoint([], CallSubject(AbsModuleCall([a], "b"))))
  }

  /** With objects in `module.a` and in `module.a.module.b`, what becomes of them depends on which of the two
      modules is visited first. */
  lemma IntoItselfDependsOnOrder()
    ensures var a, b := ModuleInstanceStep("a", NoKey), ModuleInstanceStep("b", NoKey);
            IsWritten(IntoItself(), UnifyEndpoints.RelModule([a]), UnifyEndpoints.RelModule([a, b]))
    ensures IntoItself().Valid() && !VisitOrderImmaterial<string>(IntoItself())
  {
    var s, a := IntoItself(), ModuleInstanceStep("a", NoKey);
    assert [a][..0] == [] && [a, ModuleInstanceStep("b", NoKey)][..1] == [a];
    assert StepsUnify(Synth(s.from)[0], Synth(s.to)[0]);
    assert NestedWithin(s.to, s.from);
    VisitOrderExactly(s, "");
  }

  /** A statement with unrelated ends takes every object it starts from to its destination if and only if
      nothing in the state is at the destination of one of their modules, resources or instances. */
  lemma MovesAllExactly<V>(p: Progress<V>, s: Statement, gs: seq<Object>)
    requires s.Valid() && !Related(s.from, s.to) && Visits(p, s, gs)
    ensures (forall x | x in p.state && Within(x, s.from) :: Arrived(p, VisitAll(p, s, gs), x, AddressAfter(x, s))) <==>
            (forall x | x in p.state && Within(x, s.from) :: Unblocked(p, s, x))
  {
    var xs := StatementOutcome(p, s, gs);
    forall x | x in p.state && Within(x, s.from)
      ensures Arrived(p, VisitAll(p, s, gs), x, AddressAfter(x, s)) <==> Unblocked(p, s, x)
    {
      if !Unblocked(p, s, x) {
        BlockedStays(p, s, gs, x);
      }
    }
  }

  lemma BlockedStays<V>(p: Progress<V>, s: Statement, gs: seq<Object>, x: AbsResourceInstance)
    requires s.Valid() && !Related(s.from, s.to) && Visits(p, s, gs)
    requires x in p.state && Within(x, s.from) && !Unblocked(p, s, x)
    ensures x in VisitAll(p, s, gs).state
  {
    var xs := StatementOutcome(p, s, gs);
    StateAfter(p, VisitAll(p, s, gs), s, xs, x);
  }

  // ---------------------------------------------------------------- two statements

  /** The objects of the statement's kind that a state holds something of. */
  ghost function AllGroups<V>(p: Progress<V>, s: Statement): (gs: seq<Object>)
    ensures Visits(p, s, gs)
  {
    var groups := set x | x in p.state :: GroupOf(s.from, x);
    var gs := Listed(groups);
    assert forall x | x in p.state :: GroupOf(s.from, x) in groups;
    gs
  }

  /** One statement executed on everything in the state. */
  ghost function ExecuteStatement<V>(p: Progress<V>, s: Statement): Progress<V>
    requires s.Valid()
  {
    VisitAll(p, s, AllGroups(p, s))
  }

  /** The two orders of executing whole statements never differ. */
  ghost predicate StatementsCommute<V(!new)>(a: Statement, b: Statement)
    requires a.Valid() && b.Valid()
  {
    forall p: Progress<V> ::
      ExecuteStatement(ExecuteStatement(p, a), b) == ExecuteStatement(ExecuteStatement(p, b), a)
  }

  /** Relocations of a disjoint statement do not change what is blocked. */
  lemma SameUnblocked<V>(
      p: Progress<V>, a: Statement, b: Statement, ys: seq<AbsResourceInstance>, x: AbsResourceInstance)
    requires a.Valid() && b.Valid() && Disjoint(a, b)
    ensures Unblocked(Execute(p, AttemptsOf(b, ys)), a, x) <==> Unblocked(p, a, x)
  {
    if Within(x, a.from) {
      var g := GroupOf(a.from, x);
      SameView(p, a, b, ys, x);
      if ObjectDestination(g, a.from, a.to).Some? {
        SameGroupView(p, a, g, b, ys);
      }
    }
  }

  lemma SameExecutionAfter<V>(
      p: Progress<V>, a: Statement, xs: seq<AbsResourceInstance>, b: Statement, ys: seq<AbsResourceInstance>)
    requires a.Valid() && b.Valid() && !Related(a.from, a.to) && Disjoint(a, b)
    requires forall x :: x in xs <==> Unblocked(p, a, x)
    ensures var q := Execute(p, AttemptsOf(b, ys)); ExecuteStatement(q, a) == Execute(q, AttemptsOf(a, xs))
  {
    var q := Execute(p, AttemptsOf(b, ys));
    var zs := StatementOutcome(q, a, AllGroups(q, a));
    forall x ensures x in zs <==> x in xs {
      SameUnblocked(p, a, b, ys, x);
    }
    BatchOrderImmaterial(q, a, zs, xs);
  }

  lemma DisjointExecutionsCommute<V>(p: Progress<V>, a: Statement, b: Statement)
    requires a.Valid() && b.Valid() && !Related(a.from, a.to) && !Related(b.from, b.to) && Disjoint(a, b)
    ensures ExecuteStatement(ExecuteStatement(p, a), b) == ExecuteStatement(ExecuteStatement(p, b), a)
  {
    var xs := StatementOutcome(p, a, AllGroups(p, a));
    var ys := StatementOutcome(p, b, AllGroups(p, b));
    SameExecutionAfter(p, a, xs, b, ys);
    SameExecutionAfter(p, b, ys, a, xs);
    DisjointCompatible(a, b);
    CompatibleBatchesCommute(p, a, xs, b, ys);
  }

  lemma DisjointCommuteAlways<V(!new)>(a: Statement, b: Statement)
    requires a.Valid() && b.Valid() && !Related(a.from, a.to) && !Related(b.from, b.to) && Disjoint(a, b)
    ensures StatementsCommute<V>(a, b)
  {
    forall p: Progress<V>
      ensures ExecuteStatement(ExecuteStatement(p, a), b) == ExecuteStatement(ExecuteStatement(p, b), a)
    {
      DisjointExecutionsCommute(p, a, b);
    }
  }

  /** An address belongs to the destination of an object's module, resource or instance. */
  predicate InTheWay(s: Statement, x: AbsResourceInstance, y: AbsResourceInstance)
    requires s.Valid()
  {
    var d := ObjectDestination(GroupOf(s.from, x), s.from, s.to);
    d.Some? && Covers(d.value, y)
  }

  lemma NothingInTheWay<V>(p: Progress<V>, s: Statement, x: AbsResourceInstance)
    requires s.Valid() && !Related(s.from, s.to) && x in p.state && Within(x, s.from)
    requires forall u | u in p.state && u != x :: !InTheWay(s, x, u)
    ensures Unblocked(p, s, x) && x != AddressAfter(x, s)
  {
    var g := GroupOf(s.from, x);
    EndsDiffer(s, x);
    InstancesFollow(s, g, x);
    if Covers(ObjectDestination(g, s.from, s.to).value, x) {
      SelfCovered(s, g, x);
    }
  }

  /** Of several objects, the only one that a statement starts from reaches its destination, if none of the others
      is in its way, and the others stay. */
  lemma FreeMoves<V>(p: Progress<V>, s: Statement, x: AbsResourceInstance)
    requires s.Valid() && !Related(s.from, s.to) && x in p.state && Within(x, s.from)
    requires forall u | u in p.state && u != x :: !Within(u, s.from) && !InTheWay(s, x, u)
    ensures ExecuteStatement(p, s).state.Keys == p.state.Keys - {x} + {AddressAfter(x, s)}
  {
    NothingInTheWay(p, s, x);
    var xs := StatementOutcome(p, s, AllGroups(p, s));
    assert forall u :: u in xs <==> u == x;
    forall y ensures y in ExecuteStatement(p, s).state <==> y in p.state.Keys - {x} + {AddressAfter(x, s)} {
      StateAfter(p, ExecuteStatement(p, s), s, xs, y);
    }
  }

  /** The same if the statement can touch none of the others. */
  lemma OneMoves<V>(p: Progress<V>, s: Statement, x: AbsResourceInstance)
    requires s.Valid() && !Related(s.from, s.to) && x in p.state && Within(x, s.from)
    requires forall u | u in p.state && u != x :: !Within(u, s.from) && !Within(u, s.to)
    ensures ExecuteStatement(p, s).state.Keys == p.state.Keys - {x} + {AddressAfter(x, s)}
  {
    forall u | u in p.state && u != x ensures !InTheWay(s, x, u) {
      if InTheWay(s, x, u) {
        CoveredIsDestination(s, GroupOf(s.from, x), u);
      }
    }
    FreeMoves(p, s, x);
  }

  lemma NoneMoves<V>(p: Progress<V>, s: Statement)
    requires s.Valid() && !Related(s.from, s.to) && (forall u | u in p.state :: !Unblocked(p, s, u))
    ensures ExecuteStatement(p, s).state.Keys == p.state.Keys
  {
    var xs := StatementOutcome(p, s, AllGroups(p, s));
    forall y ensures y in ExecuteStatement(p, s).state <==> y in p.state {
      StateAfter(p, ExecuteStatement(p, s), s, xs, y);
    }
  }

  /** A statement leads the only object of a state to its address afterwards. */
  lemma OnlyObject<V>(p: Progress<V>, s: Statement, u: AbsResourceInstance)
    requires s.Valid() && !Related(s.from, s.to) && p.state.Keys == {u}
    ensures ExecuteStatement(p, s).state.Keys == {AddressAfter(u, s)}
  {
    WithinIsMoved(u, s.from, s.to);
    if Within(u, s.from) {
      OneMoves(p, s, u);
    } else {
      NoneMoves(p, s);
    }
  }

  /** Two statements in turn lead the only object of a state to its address after both. */
  lemma InTurn<V>(p: Progress<V>, a: Statement, b: Statement, x: AbsResourceInstance)
    requires a.Valid() && b.Valid() && !Related(a.from, a.to) && !Related(b.from, b.to) && p.state.Keys == {x}
    ensures ExecuteStatement(ExecuteStatement(p, a), b).state.Keys == {AddressAfter(AddressAfter(x, a), b)}
  {
    OnlyObject(p, a, x);
    OnlyObject(ExecuteStatement(p, a), b, AddressAfter(x, a));
  }

  lemma ClashSeen<V(!new)>(p: Progress<V>, a: Statement, b: Statement)
    requires a.Valid() && b.Valid()
    ensures var left, right := ExecuteStatement(ExecuteStatement(p, a), b), ExecuteStatement(ExecuteStatement(p, b), a);
            left.state.Keys != right.state.Keys ==> !StatementsCommute<V>(a, b)
  {
  }

  /** A statement nested in the start of an exempt one and that one take a common object to different places,
      depending on their order. */
  lemma OrdersDiverge(a: Statement, b: Statement, x: AbsResourceInstance)
    requires a.Valid() && b.Valid() && !Related(a.from, a.to) && !Related(b.from, b.to)
    requires !StatementDependsOn(a, b) && !StatementDependsOn(b, a) && NestedWithin(b.from, a.from)
    requires Within(x, a.from) && Within(x, b.from)
    ensures AddressAfter(AddressAfter(x, a), b) != AddressAfter(AddressAfter(x, b), a)
  {
    NestedStartsDiverge(a, b, x);
    NestedIsNotChained(a, b);
    EndsDiffer(a, x);
    EndsDiffer(b, x);
    MovesBetween(x, a);
    OutsideStart(AddressAfter(x, a), a.to, b);
    SecondStep(a, x, AddressAfter(x, b));
  }

  lemma NestedExecutionsClash<V(!new)>(a: Statement, b: Statement, v: V)
    requires a.Valid() && b.Valid() && !Related(a.from, a.to) && !Related(b.from, b.to)
    requires !StatementDependsOn(a, b) && !StatementDependsOn(b, a) && NestedWithin(b.from, a.from)
    ensures !StatementsCommute<V>(a, b)
  {
    var x := RelatedHaveCommonObject(b.from, a.from);
    OrdersDiverge(a, b, x);
    var p := Progress(map[x := v], map[]);
    InTurn(p, a, b, x);
    InTurn(p, b, a, x);
    ClashSeen(p, a, b);
  }

  /** A statement with unrelated ends displaces what it starts from. */
  lemma EndsDiffer(s: Statement, x: AbsResourceInstance)
    requires s.Valid() && !Related(s.from, s.to) && Within(x, s.from)
    ensures Displaces(s, x)
  {
    WithinIsMoved(x, s.from, s.to);
    MovesBetween(x, s);
    UnrelatedDiffer(x, s.from, AddressAfter(x, s), s.to);
  }

  lemma OutsideStart(z: AbsResourceInstance, e: Endpoint, b: Statement)
    requires b.Valid() && WellFormed(e) && Within(z, e) && !Related(e, b.from)
    ensures AddressAfter(z, b) == z
  {
    RelatedExact(e, b.from);
    WithinIsMoved(z, b.from, b.to);
  }

  /** Different objects are not led to one place by a statement that moves both. */
  lemma SecondStep(a: Statement, x: AbsResourceInstance, y: AbsResourceInstance)
    requires a.Valid() && Displaces(a, x) && x != y && AddressAfter(x, a) != y
    ensures AddressAfter(x, a) != AddressAfter(y, a)
  {
    InstanceMoveInvertible(x, a.from, a.to);
    if InstanceDestination(y, a.from, a.to).Some? {
      InstanceMoveInvertible(y, a.from, a.to);
    }
  }

  lemma ChainedExecutionsClash<V(!new)>(a: Statement, b: Statement, v: V)
    requires a.Valid() && b.Valid() && !Related(a.from, a.to) && !Related(b.from, b.to)
    requires !Related(a.from, b.from) && Related(a.to, b.from)
    ensures !StatementsCommute<V>(a, b)
  {
    RelatedExact(a.to, b.from);
    var z :| Within(z, a.to) && Within(z, b.from);
    var x := Origin(z, a);
    EndsDiffer(b, z);
    OutsideStart(x, a.from, b);
    var p := Progress(map[x := v], map[]);
    InTurn(p, a, b, x);
    InTurn(p, b, a, x);
    ClashSeen(p, a, b);
  }

  /** Of two objects with one destination, the second statement leaves its own behind. */
  lemma LeftBehind<V>(
      p: Progress<V>, a: Statement, x: AbsResourceInstance, b: Statement, y: AbsResourceInstance,
      z: AbsResourceInstance)
    requires a.Valid() && b.Valid() && !Related(a.from, a.to) && !Related(b.from, b.to) && p.state.Keys == {x, y}
    requires InstanceDestination(x, a.from, a.to) == Some(z) && InstanceDestination(y, b.from, b.to) == Some(z)
    requires !Within(y, a.from) && !Within(y, a.to) && x != y && x != z && y != z
    ensures ExecuteStatement(ExecuteStatement(p, a), b).state.Keys == {y, z}
  {
    WithinIsMoved(x, a.from, a.to);
    OneMoves(p, a, x);
    var q, h := ExecuteStatement(p, a), GroupOf(b.from, y);
    assert q.state.Keys == {y, z};
    MovesBetween(y, b);
    InstancesFollow(b, h, y);
    assert Occupied(q, ObjectDestination(h, b.from, b.to).value) by {
      assert z in q.state && Covers(ObjectDestination(h, b.from, b.to).value, z);
    }
    if Within(z, b.from) {
      UnrelatedDiffer(z, b.from, z, b.to);
    }
    NoneMoves(q, b);
  }

  lemma CompetingExecutionsClash<V(!new)>(a: Statement, b: Statement, v: V)
    requires a.Valid() && b.Valid() && !Related(a.from, a.to) && !Related(b.from, b.to) && Related(a.to, b.to)
    requires !Related(a.from, b.from) && !Related(a.to, b.from) && !Related(a.from, b.to)
    ensures !StatementsCommute<V>(a, b)
  {
    var x, y, z := CompetingObjects(a, b);
    var p := Progress(map[x := v, y := v], map[]);
    LeftBehind(p, a, x, b, y, z);
    LeftBehind(p, b, y, a, x, z);
    assert x !in {y, z} && x in {x, z};
    ClashSeen(p, a, b);
  }

  lemma RelatedExecutionsClash<V(!new)>(a: Statement, b: Statement, v: V)
    requires a.Valid() && b.Valid() && !Related(a.from, a.to) && !Related(b.from, b.to)
    requires !CanChainFrom(a.from, b.from) && !StatementDependsOn(a, b) && !StatementDependsOn(b, a) && !Disjoint(a, b)
    ensures !StatementsCommute<V>(a, b)
  {
    ChainSymmetric(a.from, b.from);
    if NestedWithin(b.from, a.from) {
      NestedExecutionsClash(a, b, v);
    } else if NestedWithin(a.from, b.from) {
      NestedExecutionsClash(b, a, v);
    } else if Related(a.to, b.from) {
      ChainedExecutionsClash(a, b, v);
    } else if Related(a.from, b.to) {
      ChainedExecutionsClash(b, a, v);
    } else {
      CompetingExecutionsClash(a, b, v);
    }
  }

  /** Of whole statements with unrelated ends that do not depend on each other and do not start from one address,
      the order of execution is immaterial if and only if they touch nothing in common. */
  lemma IndependentExecutionsCommute<V(!new)>(a: Statement, b: Statement, v: V)
    requires a.Valid() && b.Valid() && !Related(a.from, a.to) && !Related(b.from, b.to)
    requires !CanChainFrom(a.from, b.from) && !StatementDependsOn(a, b) && !StatementDependsOn(b, a)
    ensures StatementsCommute<V>(a, b) <==> Disjoint(a, b)
  {
    if Disjoint(a, b) {
      DisjointCommuteAlways<V>(a, b);
    } else {
      RelatedExecutionsClash(a, b, v);
    }
  }

  // ---------------------------------------------------------------- schedules

  predicate AllValid(order: seq<Statement>) {
    forall s | s in order :: s.Valid()
  }

  /** No statement is executed before one that it depends on. */
  ghost predicate RespectsDependencies(order: seq<Statement>) {
    Respects(DependsOn, order)
  }

  predicate DependsOn(a: Statement, b: Statement) {
    a.Valid() && b.Valid() && StatementDependsOn(a, b)
  }

  ghost function Perform<V>(p: Progress<V>, s: Statement): Progress<V> {
    if s.Valid() then ExecuteStatement(p, s) else p
  }

  /** Statements executed one after the other. */
  ghost function RunSchedule<V>(p: Progress<V>, order: seq<Statement>): Progress<V> {
    RunAll(Perform, p, order)
  }

  /** Different statements without a dependency between them commute. */
  ghost predicate UnorderedCommute<V(!new)>(order: seq<Statement>)
    requires AllValid(order)
  {
    forall a, b | a in order && b in order && a != b && !StatementDependsOn(a, b) && !StatementDependsOn(b, a) ::
      StatementsCommute<V>(a, b)
  }

  lemma PerformsCommute<V(!new)>(a: Statement, b: Statement)
    requires a.Valid() && b.Valid() && StatementsCommute<V>(a, b)
    ensures Commute(Perform<V>, a, b)
  {
  }

  /** Any two orders of the same statements that respect the dependencies between them end in the same state and
      record, if statements without a dependency between them commute. */
  lemma SchedulesAgree<V(!new)>(p: Progress<V>, order: seq<Statement>, other: seq<Statement>)
    requires AllValid(order) && multiset(order) == multiset(other) && UnorderedCommute<V>(order)
    requires RespectsDependencies(order) && RespectsDependencies(other)
    ensures RunSchedule(p, order) == RunSchedule(p, other)
  {
    forall a, b | a in order && b in order && a != b && !DependsOn(a, b) && !DependsOn(b, a)
      ensures Commute(Perform<V>, a, b)
    {
      PerformsCommute<V>(a, b);
    }
    OrdersAgree(Perform<V>, DependsOn, p, order, other);
  }

  /** The same for statements with unrelated ends: it is enough that those without a dependency between them
      touch nothing in common. */
  lemma DisjointSchedulesAgree<V(!new)>(p: Progress<V>, order: seq<Statement>, other: seq<Statement>)
    requires AllValid(order) && multiset(order) == multiset(other)
    requires RespectsDependencies(order) && RespectsDependencies(other)
    requires forall s | s in order :: !Related(s.from, s.to)
    requires forall a, b | a in order && b in order && a != b && !DependsOn(a, b) && !DependsOn(b, a) :: Disjoint(a, b)
    ensures RunSchedule(p, order) == RunSchedule(p, other)
  {
    forall a, b | a in order && b in order && a != b && !StatementDependsOn(a, b) && !StatementDependsOn(b, a)
      ensures StatementsCommute<V>(a, b)
    {
      DisjointCommuteAlways<V>(a, b);
    }
    SchedulesAgree(p, order, other);
  }

  // ---------------------------------------------------------------- a nested module that is left behind

  function CallStatement(f: string, t: string): Statement {
    Statement(Endpoint([], CallSubject(AbsModuleCall([], f))), Endpoint([], CallSubject(AbsModuleCall([], t))))
  }

  function PathOf(names: Module): ModuleInstance {
    seq(|names|, i requires 0 <= i < |names| => ModuleInstanceStep(names[i], NoKey))
  }

  /** The resource `t.n` of a module without instance keys. */
  function At(names: Module): AbsResourceInstance {
    AbsResourceInstance(PathOf(names), ResourceInstance(Resource(Managed, "t", "n"), NoKey))
  }

  lemma CallEnds(f: string, t: string)
    requires f != t
    ensures CallStatement(f, t).Valid() && !Related(CallStatement(f, t).from, CallStatement(f, t).to)
  {
    var s := CallStatement(f, t);
    assert !StepsUnify(Synth(s.from)[0], Synth(s.to)[0]);
    assert !StepsUnify(Synth(s.to)[0], Synth(s.from)[0]);
  }

  lemma CallMoves(f: string, t: string, rest: Module)
    ensures var s := CallStatement(f, t);
            && s.Valid() && InstanceDestination(At([f] + rest), s.from, s.to) == Some(At([t] + rest))
            && ObjectDestination(GroupOf(s.from, At([f] + rest)), s.from, s.to) ==
               Some(ModuleObject(PathOf([t] + rest)))
  {
    var s, m := CallStatement(f, t), PathOf([f] + rest);
    assert Synth(s.from) == [PatternStep(f, AnyKey)];
    assert m[1..] == PathOf(rest);
    assert PathOf([t] + rest) == [ModuleInstanceStep(t, NoKey)] + PathOf(rest);
    assert AdmitsPrefix(Synth(s.from), m);
    assert Replacement(m, s.from, s.to) == [ModuleInstanceStep(t, NoKey)];
    assert m[..0] + Replacement(m, s.from, s.to) == [ModuleInstanceStep(t, NoKey)];
    assert ModuleDestination(m, s.from, s.to) == Some(PathOf([t] + rest));
  }

  /** With `module.a` to `module.b`, and a state that holds `module.a.t.n`, `module.a.module.c.t.n` and
      `module.b.module.c.t.n`: module instances are moved one by one, so the first object moves, and the second
      is left behind because the third is in its way. */
  lemma NestedModuleStaysBehind<V>(v: V, gs: seq<Object>)
    requires Visits(NestedState(v), CallStatement("a", "b"), gs)
    ensures CallStatement("a", "b").Valid()
    ensures var q := VisitAll(NestedState(v), CallStatement("a", "b"), gs);
            At(["a"]) !in q.state && At(["b"]) in q.state && At(["a", "c"]) in q.state
  {
    var s, p := CallStatement("a", "b"), NestedState(v);
    CallEnds("a", "b");
    var xs := StatementOutcome(p, s, gs);
    OuterUnblocked(v);
    InnerBlocked(v);
    assert At(["a"]) in xs && At(["a", "c"]) !in xs;
    assert Arrived(p, VisitAll(p, s, gs), At(["a"]), AddressAfter(At(["a"]), s));
    StateAfter(p, VisitAll(p, s, gs), s, xs, At(["a", "c"]));
  }

  function NestedState<V>(v: V): Progress<V> {
    Progress(map[At(["a"]) := v, At(["a", "c"]) := v, At(["b", "c"]) := v], map[])
  }

  lemma OuterUnblocked<V>(v: V)
    ensures var s, p := CallStatement("a", "b"), NestedState(v);
            s.Valid() && Unblocked(p, s, At(["a"])) && AddressAfter(At(["a"]), s) == At(["b"])
  {
    var s, p := CallStatement("a", "b"), NestedState(v);
    CallMoves("a", "b", []);
    assert ["a"] + [] == ["a"] && ["b"] + [] == ["b"];
    WithinIsMoved(At(["a"]), s.from, s.to);
    assert |PathOf(["b"])| == 1 && |PathOf(["a", "c"])| == 2 && |PathOf(["b", "c"])| == 2;
    assert PathOf(["a"])[0].name != PathOf(["b"])[0].name;
  }

  lemma InnerBlocked<V>(v: V)
    ensures var s, p := CallStatement("a", "b"), NestedState(v);
            s.Valid() && At(["a", "c"]) in p.state && !Unblocked(p, s, At(["a", "c"]))
  {
    var s, p := CallStatement("a", "b"), NestedState(v);
    CallMoves("a", "b", ["c"]);
    assert ["a"] + ["c"] == ["a", "c"] && ["b"] + ["c"] == ["b", "c"];
    assert Covers(ModuleObject(PathOf(["b", "c"])), At(["b", "c"]));
    assert Occupied(p, ModuleObject(PathOf(["b", "c"])));
  }
}
