/** Sequences of steps that may be permuted: two orders of the same steps have the same effect if both respect
    the dependencies between steps and steps without a dependency between them commute.
 */
module Schedules {

  /** The effect of steps executed one after the other. */
  ghost function RunAll<S, T>(step: (S, T) -> S, s: S, order: seq<T>): S
    decreases |order|
  {
    if order == [] then s else RunAll(step, step(s, order[0]), order[1..])
  }

  ghost predicate Commute<S(!new), T>(step: (S, T) -> S, a: T, b: T) {
    forall s :: step(step(s, a), b) == step(step(s, b), a)
  }

  /** No step is executed before one that it depends on. */
  ghost predicate Respects<T>(depends: (T, T) -> bool, order: seq<T>) {
    forall i, j | 0 <= i < j < |order| :: !depends(order[i], order[j])
  }

  /** Different steps without a dependency between them commute. */
  ghost predicate IndependentCommute<S(!new), T(!new)>(step: (S, T) -> S, depends: (T, T) -> bool, order: seq<T>) {
    forall a, b | a in order && b in order && a != b && !depends(a, b) && !depends(b, a) :: Commute(step, a, b)
  }

  ghost function Without<T>(order: seq<T>, k: nat): seq<T>
    requires k < |order|
  {
    order[..k] + order[k + 1..]
  }

  lemma WithoutElements<T>(order: seq<T>, k: nat)
    requires k < |order|
    ensures multiset(order) == multiset(Without(order, k)) + multiset{order[k]}
    ensures forall i | 0 <= i < |order| - 1 :: Without(order, k)[i] == order[if i < k then i else i + 1]
  {
    assert order == order[..k] + [order[k]] + order[k + 1..];
  }

  lemma WithoutRespects<T>(depends: (T, T) -> bool, order: seq<T>, k: nat)
    requires k < |order| && Respects(depends, order)
    ensures Respects(depends, Without(order, k))
  {
    WithoutElements(order, k);
  }

  /** A step that commutes with all those before it can be executed first. */
  lemma {:induction false} PullFirst<S(!new), T>(step: (S, T) -> S, s: S, order: seq<T>, k: nat)
    requires k < |order| && forall i | 0 <= i < k :: Commute(step, order[i], order[k])
    ensures RunAll(step, s, order) == RunAll(step, step(s, order[k]), Without(order, k))
    decreases k
  {
    if k == 0 {
      assert Without(order, 0) == order[1..];
    } else {
      var tail := order[1..];
      PullFirst(step, step(s, order[0]), tail, k - 1);
      assert Commute(step, order[0], order[k]);
      assert Without(order, k)[1..] == Without(tail, k - 1);
    }
  }

  lemma FirstOccurrence<T>(order: seq<T>, u: T) returns (k: nat)
    requires u in order
    ensures k < |order| && order[k] == u && u !in order[..k]
  {
    k := 0;
    while order[k] != u
      invariant k < |order| && u !in order[..k] && u in order[k..]
      decreases |order| - k
    {
      assert order[..k + 1] == order[..k] + [order[k]];
      assert order[k..] == [order[k]] + order[k + 1..];
      k := k + 1;
    }
  }

  /** A step that one order puts before another, and the other order after it, is independent of it. */
  lemma CommutesWithFirst<S(!new), T(!new)>(
      step: (S, T) -> S, depends: (T, T) -> bool, order: seq<T>, other: seq<T>, i: nat, k: nat)
    requires multiset(order) == multiset(other) && order != [] && IndependentCommute(step, depends, order)
    requires Respects(depends, order) && Respects(depends, other)
    requires i < k < |other| && other[k] == order[0] && order[0] !in other[..k]
    ensures Commute(step, other[i], other[k])
  {
    var w := other[i];
    assert w in other[..k];
    assert w in multiset(other);
    assert w in order;
    var j :| 0 <= j < |order| && order[j] == w;
    assert !depends(order[0], order[j]) && !depends(other[i], other[k]);
  }

  lemma RestHasSameElements<T>(order: seq<T>, other: seq<T>, k: nat)
    requires multiset(order) == multiset(other) && order != [] && k < |other| && other[k] == order[0]
    ensures multiset(order[1..]) == multiset(Without(other, k))
  {
    var u := multiset{order[0]};
    WithoutElements(order, 0);
    WithoutElements(other, k);
    assert Without(order, 0) == order[1..];
    assert multiset(order[1..]) == multiset(order) - u && multiset(Without(other, k)) == multiset(other) - u;
  }

  lemma RestKeeps<S(!new), T(!new)>(step: (S, T) -> S, depends: (T, T) -> bool, order: seq<T>)
    requires order != [] && Respects(depends, order) && IndependentCommute(step, depends, order)
    ensures Respects(depends, order[1..]) && IndependentCommute(step, depends, order[1..])
  {
    assert forall a | a in order[1..] :: a in order;
  }

  /** The order of steps shows only as far as it must. */
  lemma {:induction false} OrdersAgree<S(!new), T(!new)>(
      step: (S, T) -> S, depends: (T, T) -> bool, s: S, order: seq<T>, other: seq<T>)
    requires multiset(order) == multiset(other) && IndependentCommute(step, depends, order)
    requires Respects(depends, order) && Respects(depends, other)
    ensures RunAll(step, s, order) == RunAll(step, s, other)
    decreases |order|
  {
    if order == [] {
      assert |other| == |multiset(other)| == 0;
    } else {
      var u, rest := order[0], order[1..];
      assert u in multiset(other);
      var k := FirstOccurrence(other, u);
      forall i | 0 <= i < k ensures Commute(step, other[i], other[k]) {
        CommutesWithFirst(step, depends, order, other, i, k);
      }
      PullFirst(step, s, other, k);
      WithoutRespects(depends, other, k);
      RestHasSameElements(order, other, k);
      RestKeeps(step, depends, order);
      OrdersAgree(step, depends, step(s, u), rest, Without(other, k));
    }
  }
}
