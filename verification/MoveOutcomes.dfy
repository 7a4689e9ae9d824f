/** What the dependencies between move statements are for: the place where an object ends up when statements that
    concern it are executed in an order that respects them.
 */
module MoveOutcomes {
  import opened Addrs
  import opened MoveEndpoints
  import opened MoveAlgebra
  import opened MoveExecution
  import opened MoveOrder
  import opened MoveGroups
  import opened Schedules
  import opened MoveSchedules

  // ---------------------------------------------------------------- what becomes of one object

  /** The address of an object after statements executed one after the other. */
  function AddressAfterAll(x: AbsResourceInstance, order: seq<Statement>): AbsResourceInstance
    requires AllValid(order)
    decreases |order|
  {
    if order == [] then x else
    assert order[0] in order;
    assert forall s | s in order[1..] :: s in order;
    AddressAfterAll(AddressAfter(x, order[0]), order[1..])
  }

  /** No statement of a schedule finds something at the destination of the object's module, resource or instance. */
  ghost predicate NeverBlocked<V>(p: Progress<V>, order: seq<Statement>, x: AbsResourceInstance)
    requires AllValid(order)
    decreases |order|
  {
    order == [] ||
    (assert order[0] in order;
     assert forall s | s in order[1..] :: s in order;
     && (Within(x, order[0].from) ==> Unblocked(p, order[0], x))
     && NeverBlocked(Perform(p, order[0]), order[1..], AddressAfter(x, order[0])))
  }

  lemma ObjectMoves<V>(p: Progress<V>, s: Statement, x: AbsResourceInstance)
    requires s.Valid() && !Related(s.from, s.to) && x in p.state && (Within(x, s.from) ==> Unblocked(p, s, x))
    ensures var y, q := AddressAfter(x, s), Perform(p, s); y in q.state && q.state[y] == p.state[x]
  {
    var xs := StatementOutcome(p, s, AllGroups(p, s));
    WithinIsMoved(x, s.from, s.to);
    if Within(x, s.from) {
      assert Arrived(p, Perform(p, s), x, AddressAfter(x, s));
    } else {
      forall u | u in xs ensures x != u && x != AddressAfter(u, s) {
        assert AddressAfter(u, s) !in p.state;
      }
      assert !Touches(s, xs, x);
      assert SameAt(p, Perform(p, s), x);
    }
  }

  /** An object that is never blocked ends up at its address after all statements, in any schedule. */
  lemma {:induction false} ObjectFollows<V>(p: Progress<V>, order: seq<Statement>, x: AbsResourceInstance)
    requires AllValid(order) && (forall s | s in order :: !Related(s.from, s.to))
    requires x in p.state && NeverBlocked(p, order, x)
    ensures var y, q := AddressAfterAll(x, order), RunSchedule(p, order); y in q.state && q.state[y] == p.state[x]
    decreases |order|
  {
    if order != [] {
      assert order[0] in order;
      assert forall s | s in order[1..] :: s in order;
      ObjectMoves(p, order[0], x);
      ObjectFollows(Perform(p, order[0]), order[1..], AddressAfter(x, order[0]));
    }
  }

  /** None of the statements has anything to do with an address. */
  predicate LeavesAlone(order: seq<Statement>, x: AbsResourceInstance) {
    forall s | s in order :: !Within(x, s.from)
  }

  lemma {:induction false} StaysAfterAll(order: seq<Statement>, x: AbsResourceInstance)
    requires AllValid(order) && LeavesAlone(order, x)
    ensures AddressAfterAll(x, order) == x
    decreases |order|
  {
    if order != [] {
      assert order[0] in order;
      assert forall s | s in order[1..] :: s in order;
      WithinIsMoved(x, order[0].from, order[0].to);
      StaysAfterAll(order[1..], x);
    }
  }

  lemma {:induction false} AddressAfterConcat(x: AbsResourceInstance, order: seq<Statement>, more: seq<Statement>)
    requires AllValid(order) && AllValid(more)
    ensures AllValid(order + more)
    ensures AddressAfterAll(x, order + more) == AddressAfterAll(AddressAfterAll(x, order), more)
    decreases |order|
  {
    if order == [] {
      assert order + more == more;
    } else {
      assert order[0] in order;
      assert forall s | s in order[1..] :: s in order;
      assert (order + more)[1..] == order[1..] + more;
      AddressAfterConcat(AddressAfter(x, order[0]), order[1..], more);
    }
  }

  /** Of two statements in a schedule, the rest of which has nothing to do with an object, the first acts first. */
  lemma ActInTurn(x: AbsResourceInstance, before: seq<Statement>, b: Statement, between: seq<Statement>, a: Statement,
                  after: seq<Statement>)
    requires AllValid(before) && b.Valid() && AllValid(between) && a.Valid() && AllValid(after)
    requires LeavesAlone(before, x) && LeavesAlone(between, AddressAfter(x, b))
    requires LeavesAlone(after, AddressAfter(AddressAfter(x, b), a))
    ensures AllValid(before + ([b] + (between + ([a] + after))))
    ensures AddressAfterAll(x, before + ([b] + (between + ([a] + after)))) == AddressAfter(AddressAfter(x, b), a)
  {
    var y := AddressAfter(x, b);
    StaysAfterAll(before, x);
    StaysAfterAll(between, y);
    StaysAfterAll(after, AddressAfter(y, a));
    AddressAfterConcat(AddressAfter(y, a), [], after);
    AddressAfterConcat(y, [a], after);
    AddressAfterConcat(y, between, [a] + after);
    AddressAfterConcat(x, [b], between + ([a] + after));
    AddressAfterConcat(x, before, [b] + (between + ([a] + after)));
    assert [a][1..] == [] && [b][1..] == [];
  }

  /** Of statements with a common start, the inner one comes first in every order that respects the dependencies,
      unless the outer one re-indexes around it. */
  lemma InnerIsFirst(order: seq<Statement>, i: nat, j: nat, x: AbsResourceInstance)
    requires AllValid(order) && RespectsDependencies(order)
    requires i < |order| && j < |order| && i != j && order[i] in order && order[j] in order
    requires !ReIndexesAround(order[i], order[j])
    requires Within(x, order[i].from) && Within(x, order[j].from) && Depth(order[i].from) < Depth(order[j].from)
    ensures j < i
  {
    DependsExactly(order[i], order[j]);
    assert DependsOn(order[i], order[j]);
  }

  /** The address where two statements of a schedule take an object, given that they act in that order and that
      the rest of the schedule has nothing to do with it. */
  lemma OnlyTwoAct(order: seq<Statement>, i: nat, j: nat, x: AbsResourceInstance)
    requires AllValid(order) && j < i < |order| && order[i] in order && order[j] in order
    requires OthersLeaveAlone(order, i, j, x)
    ensures AddressAfterAll(x, order) == AddressAfter(AddressAfter(x, order[j]), order[i])
  {
    var before, between, after := order[..j], order[j + 1..i], order[i + 1..];
    assert order == before + ([order[j]] + (between + ([order[i]] + after)));
    PartsLeaveAlone(order, i, j, x);
    ActInTurn(x, before, order[j], between, order[i], after);
  }

  /** Only the two statements given have to do with the places that they take an object through. */
  predicate OthersLeaveAlone(order: seq<Statement>, i: nat, j: nat, x: AbsResourceInstance)
    requires AllValid(order) && i < |order| && j < |order| && order[i] in order && order[j] in order
  {
    var y := AddressAfter(x, order[j]);
    var z := AddressAfter(y, order[i]);
    forall k | 0 <= k < |order| && k != i && k != j ::
      !Within(x, order[k].from) && !Within(y, order[k].from) && !Within(z, order[k].from)
  }

  /** A statement nested in the start of another one, which does not re-index around it, acts first. In every
      schedule that respects the dependencies, an object of both that is never blocked and that no other
      statement of the schedule has to do with ends where the inner and then the outer statement take it. */
  lemma InnerActsFirst<V>(p: Progress<V>, order: seq<Statement>, i: nat, j: nat, x: AbsResourceInstance)
    requires AllValid(order) && RespectsDependencies(order) && (forall s | s in order :: !Related(s.from, s.to))
    requires i < |order| && j < |order| && i != j && order[i] in order && order[j] in order
    requires !ReIndexesAround(order[i], order[j])
    requires Within(x, order[i].from) && Within(x, order[j].from) && Depth(order[i].from) < Depth(order[j].from)
    ensures j < i
    ensures x in p.state && NeverBlocked(p, order, x) && OthersLeaveAlone(order, i, j, x) ==>
              var z, q := AddressAfter(AddressAfter(x, order[j]), order[i]), RunSchedule(p, order);
              z in q.state && q.state[z] == p.state[x]
  {
    InnerIsFirst(order, i, j, x);
    if x in p.state && NeverBlocked(p, order, x) && OthersLeaveAlone(order, i, j, x) {
      OnlyTwoAct(order, i, j, x);
      ObjectFollows(p, order, x);
    }
  }

  lemma PartsLeaveAlone(order: seq<Statement>, i: nat, j: nat, x: AbsResourceInstance)
    requires AllValid(order) && j < i < |order| && order[i] in order && order[j] in order
    requires OthersLeaveAlone(order, i, j, x)
    ensures AllValid(order[..j]) && AllValid(order[j + 1..i]) && AllValid(order[i + 1..])
    ensures LeavesAlone(order[..j], x) && LeavesAlone(order[j + 1..i], AddressAfter(x, order[j]))
    ensures LeavesAlone(order[i + 1..], AddressAfter(AddressAfter(x, order[j]), order[i]))
  {
  }

  lemma TwoElements(order: seq<Statement>, a: Statement, b: Statement)
    requires multiset(order) == multiset{a, b}
    ensures order == [a, b] || order == [b, a]
  {
    assert |order| == |multiset(order)| == 2;
    assert order == [order[0], order[1]];
    assert multiset(order) == multiset{order[0], order[1]};
    assert order[0] in multiset(order) && order[1] in multiset(order);
    assert a in multiset(order) && b in multiset(order);
  }

  /** Of statements of which one ends inside the destination of the other, the outer one comes first. */
  lemma OuterIsFirst(order: seq<Statement>, a: Statement, b: Statement)
    requires a.Valid() && b.Valid() && !ReIndexesAround(a, b) && Meets(a.to, b.to) && Depth(b.to) < Depth(a.to)
    requires multiset(order) == multiset{a, b} && RespectsDependencies(order)
    ensures order == [b, a]
  {
    DependsExactly(a, b);
    TwoElements(order, a, b);
    assert |order| == 2 && !DependsOn(order[0], order[1]);
  }

  lemma RunTwo<V>(p: Progress<V>, a: Statement, b: Statement)
    requires a.Valid() && b.Valid()
    ensures RunSchedule(p, [a, b]) == ExecuteStatement(ExecuteStatement(p, a), b)
  {
    var step: (Progress<V>, Statement) -> Progress<V> := Perform;
    assert [a, b][1..] == [b] && [b][1..] == [];
    assert RunAll(step, Perform(p, a), [b]) == RunAll(step, Perform(Perform(p, a), b), []);
  }

  /** Two objects that only one statement each starts from. */
  predicate OwnObjects(a: Statement, w: AbsResourceInstance, b: Statement, x: AbsResourceInstance)
    requires a.Valid() && b.Valid()
  {
    && Within(w, a.from) && !Within(w, b.from) && Within(x, b.from) && !Within(x, a.from)
    && !Within(AddressAfter(x, b), a.from) && !InTheWay(a, w, x) && !InTheWay(b, x, w)
  }

  lemma BothArrive<V>(p: Progress<V>, a: Statement, w: AbsResourceInstance, b: Statement, x: AbsResourceInstance)
    requires a.Valid() && b.Valid() && !Related(a.from, a.to) && !Related(b.from, b.to) && OwnObjects(a, w, b, x)
    requires p.state.Keys == {x, w} && !InTheWay(a, w, AddressAfter(x, b))
    ensures ExecuteStatement(ExecuteStatement(p, b), a).state.Keys == {AddressAfter(x, b), AddressAfter(w, a)}
  {
    FreeMoves(p, b, x);
    assert x != w;
    var q := ExecuteStatement(p, b);
    assert q.state.Keys == {AddressAfter(x, b), w};
    FreeMoves(q, a, w);
    assert w != AddressAfter(x, b);
  }

  lemma InnerBlocksOuter<V>(p: Progress<V>, a: Statement, w: AbsResourceInstance, b: Statement, x: AbsResourceInstance)
    requires a.Valid() && b.Valid() && !Related(a.from, a.to) && !Related(b.from, b.to) && OwnObjects(a, w, b, x)
    requires p.state.Keys == {x, w} && InTheWay(b, x, AddressAfter(w, a))
    ensures x in ExecuteStatement(ExecuteStatement(p, a), b).state
  {
    FreeMoves(p, a, w);
    assert x != w;
    var r := ExecuteStatement(p, a);
    assert AddressAfter(w, a) in r.state;
    assert Occupied(r, ObjectDestination(GroupOf(b.from, x), b.from, b.to).value);
    BlockedStays(r, b, AllGroups(r, b), x);
  }

  /** Of statements of which one ends inside the destination of the other, the outer one acts first: in every
      schedule of the two that respects the dependencies both objects arrive. The other way round the inner
      object would be in the way of the outer one, which would stay. */
  lemma OuterArrivesFirst<V>(p: Progress<V>, a: Statement, w: AbsResourceInstance, b: Statement, x: AbsResourceInstance,
                             order: seq<Statement>)
    requires a.Valid() && b.Valid() && !Related(a.from, a.to) && !Related(b.from, b.to) && !ReIndexesAround(a, b)
    requires Meets(a.to, b.to) && Depth(b.to) < Depth(a.to)
    requires multiset(order) == multiset{a, b} && RespectsDependencies(order)
    requires p.state.Keys == {x, w} && OwnObjects(a, w, b, x)
    requires InTheWay(b, x, AddressAfter(w, a)) && !InTheWay(a, w, AddressAfter(x, b))
    ensures RunSchedule(p, order).state.Keys == {AddressAfter(x, b), AddressAfter(w, a)}
    ensures x in RunSchedule(p, [a, b]).state
  {
    OuterIsFirst(order, a, b);
    RunTwo(p, b, a);
    RunTwo(p, a, b);
    BothArrive(p, a, w, b, x);
    InnerBlocksOuter(p, a, w, b, x);
  }
}
