/** Moves of whole objects, as the loops of `ApplyMoves` in `internal/refactoring/move_execute.go` make them.

    A statement moves a module instance or a resource with all its instances, or one instance. The modules nested
    in a module are objects of their own. Something already at the destination of an object blocks its whole
    move. Otherwise its instances are relocated one by one, in whatever order the code's maps are iterated in.
 */
module MoveGroups {
  import opened Addrs
  import opened MoveEndpoints
  import opened MoveAlgebra
  import opened MoveExecution
  import opened MoveOrder

  /** A resource instance belongs to an object: it is in that module, of that resource, or the object itself. */
  predicate Covers(g: Object, x: AbsResourceInstance) {
    match g
    case ModuleObject(m) => x.path == m
    case ResourceObject(r) => x.ContainingResource() == r
    case InstanceObject(ri) => x == ri
  }

  /** The object of an endpoint's kind that a resource instance belongs to. */
  function GroupOf(e: Endpoint, x: AbsResourceInstance): Object {
    match e.subject
    case ResourceSubject(_) => ResourceObject(x.ContainingResource())
    case InstanceSubject(_) => InstanceObject(x)
    case _ => ModuleObject(x.path)
  }

  /** A statement acts on objects of its own kind. */
  predicate Fits(s: Statement, g: Object) {
    match s.from.subject
    case ResourceSubject(_) => g.ResourceObject?
    case InstanceSubject(_) => g.InstanceObject?
    case _ => g.ModuleObject?
  }

  predicate Occupied<V>(p: Progress<V>, g: Object) {
    exists x | x in p.state :: Covers(g, x)
  }

  /** The instances of an object that a state holds, in some order. */
  ghost predicate Enumerates<V>(p: Progress<V>, g: Object, xs: seq<AbsResourceInstance>) {
    forall x :: x in xs <==> x in p.state && Covers(g, x)
  }

  /** One move of a whole object, whose instances are visited in the given order. */
  function MoveGroup<V>(p: Progress<V>, s: Statement, g: Object, xs: seq<AbsResourceInstance>): Progress<V>
    requires s.Valid()
  {
    match ObjectDestination(g, s.from, s.to)
    case None => p
    case Some(d) => if Occupied(p, d) then p else Execute(p, AttemptsOf(s, xs))
  }

  // ---------------------------------------------------------------- a move takes the object as a whole

  /** The instances of an object move exactly when the object does, and to the same place. */
  lemma InstancesFollow(s: Statement, g: Object, x: AbsResourceInstance)
    requires s.Valid() && Fits(s, g) && Covers(g, x)
    ensures ObjectDestination(g, s.from, s.to).Some? <==> InstanceDestination(x, s.from, s.to).Some?
    ensures ObjectDestination(g, s.from, s.to).Some? ==>
              Covers(ObjectDestination(g, s.from, s.to).value, InstanceDestination(x, s.from, s.to).value)
  {
  }

  /** Whatever belongs to the destination of an object lies within the "to" endpoint. */
  lemma CoveredIsDestination(s: Statement, g: Object, y: AbsResourceInstance)
    requires s.Valid() && Fits(s, g) && ObjectDestination(g, s.from, s.to).Some?
    requires Covers(ObjectDestination(g, s.from, s.to).value, y)
    ensures Within(y, s.to)
  {
    var d := ObjectDestination(g, s.from, s.to).value;
    MoveInvertible(g, s.from, s.to);
    InstancesFollow(Reversed(s), d, y);
    WithinIsMoved(y, s.to, s.from);
  }

  /** An address is one that visiting the given instances takes something from or to. */
  predicate Touches(s: Statement, xs: seq<AbsResourceInstance>, y: AbsResourceInstance)
    requires s.Valid()
  {
    exists x | x in xs :: y == x || y == AddressAfter(x, s)
  }

  /** How far a move has come: the instances visited have left for their destinations, with their original
      addresses on record, and everything else is as it was. */
  ghost predicate HasMoved<V>(p: Progress<V>, q: Progress<V>, s: Statement, xs: seq<AbsResourceInstance>)
    requires s.Valid()
  {
    && (forall x | x in xs :: Arrived(p, q, x, AddressAfter(x, s)))
    && (forall y | !Touches(s, xs, y) :: SameAt(p, q, y))
  }

  /** What was at one address is now at another, and the record says where it came from. */
  ghost predicate Arrived<V>(p: Progress<V>, q: Progress<V>, x: AbsResourceInstance, d: AbsResourceInstance) {
    && x in p.state && x !in q.state && x !in q.changes
    && d in q.state && q.state[d] == p.state[x]
    && d in q.changes && q.changes[d] == OldAddr(p.changes, x)
  }

  /** State and record say the same about an address. */
  ghost predicate SameAt<V>(p: Progress<V>, q: Progress<V>, y: AbsResourceInstance) {
    && (y in q.state <==> y in p.state) && (y in p.state ==> q.state[y] == p.state[y])
    && (y in q.changes <==> y in p.changes) && (y in p.changes ==> q.changes[y] == p.changes[y])
  }

  /** The instances to visit are there, and their destinations are free. */
  predicate CanMove<V>(p: Progress<V>, s: Statement, xs: seq<AbsResourceInstance>)
    requires s.Valid()
  {
    forall x | x in xs :: x in p.state && InstanceDestination(x, s.from, s.to).Some? && AddressAfter(x, s) !in p.state
  }

  lemma TouchesMore(s: Statement, xs: seq<AbsResourceInstance>, x: AbsResourceInstance, y: AbsResourceInstance)
    requires s.Valid()
    ensures Touches(s, xs + [x], y) <==> Touches(s, xs, y) || y == x || y == AddressAfter(x, s)
  {
    assert x in xs + [x];
    if u :| u in xs && (y == u || y == AddressAfter(u, s)) {
      assert u in xs + [x];
    }
  }

  lemma VisitOne<V>(p: Progress<V>, q: Progress<V>, s: Statement, xs: seq<AbsResourceInstance>, x: AbsResourceInstance)
    requires s.Valid() && CanMove(p, s, xs + [x]) && HasMoved(p, q, s, xs)
    ensures HasMoved(p, Relocate(q, s, x), s, xs + [x])
  {
    var all, r := xs + [x], Relocate(q, s, x);
    assert forall u :: u in all <==> u in xs || u == x;
    if x in xs {
      assert Arrived(p, q, x, AddressAfter(x, s));
    } else {
      DestinationIsFree(p, q, s, xs, x);
    }
    forall u | u in all ensures Arrived(p, r, u, AddressAfter(u, s)) {
      if u != x {
        InstanceMoveInvertible(u, s.from, s.to);
        InstanceMoveInvertible(x, s.from, s.to);
        assert Arrived(p, q, u, AddressAfter(u, s));
      }
    }
    forall y | !Touches(s, all, y) ensures SameAt(p, r, y) {
      TouchesMore(s, xs, x, y);
      assert SameAt(p, q, y);
    }
  }

  lemma DestinationIsFree<V>(
      p: Progress<V>, q: Progress<V>, s: Statement, xs: seq<AbsResourceInstance>, x: AbsResourceInstance)
    requires s.Valid() && CanMove(p, s, xs + [x]) && HasMoved(p, q, s, xs) && x !in xs
    ensures x in q.state && AddressAfter(x, s) !in q.state && SameAt(p, q, x)
  {
    var d := AddressAfter(x, s);
    assert x in xs + [x];
    forall u | u in xs ensures u != d && AddressAfter(u, s) != x && AddressAfter(u, s) != d {
      assert u in xs + [x];
      InstanceMoveInvertible(u, s.from, s.to);
      InstanceMoveInvertible(x, s.from, s.to);
    }
    assert !Touches(s, xs, x) && !Touches(s, xs, d);
    assert SameAt(p, q, d);
  }

  lemma {:induction false} VisitsMove<V>(p: Progress<V>, s: Statement, xs: seq<AbsResourceInstance>)
    requires s.Valid() && CanMove(p, s, xs)
    ensures HasMoved(p, Execute(p, AttemptsOf(s, xs)), s, xs)
  {
    if xs == [] {
      NoneVisited(p, s);
    } else {
      var init, x := xs[..|xs| - 1], xs[|xs| - 1];
      assert xs == init + [x];
      LastAttempt(p, s, init, x);
      VisitsMove(p, s, init);
      VisitOne(p, Execute(p, AttemptsOf(s, init)), s, init, x);
    }
  }

  lemma NoneVisited<V>(p: Progress<V>, s: Statement)
    requires s.Valid()
    ensures HasMoved(p, Execute(p, AttemptsOf(s, [])), s, [])
  {
    assert Execute(p, AttemptsOf(s, [])) == p;
  }

  lemma LastAttempt<V>(p: Progress<V>, s: Statement, init: seq<AbsResourceInstance>, x: AbsResourceInstance)
    requires s.Valid()
    ensures Execute(p, AttemptsOf(s, init + [x])) == Relocate(Execute(p, AttemptsOf(s, init)), s, x)
  {
    var all := AttemptsOf(s, init + [x]);
    assert all[..|all| - 1] == AttemptsOf(s, init);
  }

  lemma CanMoveGroup<V>(p: Progress<V>, s: Statement, g: Object, xs: seq<AbsResourceInstance>)
    requires s.Valid() && Fits(s, g) && Enumerates(p, g, xs) && ObjectDestination(g, s.from, s.to).Some?
    requires !Occupied(p, ObjectDestination(g, s.from, s.to).value)
    ensures CanMove(p, s, xs)
  {
    forall x | x in xs
      ensures x in p.state && InstanceDestination(x, s.from, s.to).Some? && AddressAfter(x, s) !in p.state
    {
      InstancesFollow(s, g, x);
    }
  }

  /** A module instance, a resource or an instance moves as a whole or not at all: unless something is at its
      destination, each of its instances ends up at its own destination with its value, and every other
      address holds what it held. */
  lemma GroupMovesWhole<V>(p: Progress<V>, s: Statement, g: Object, xs: seq<AbsResourceInstance>)
    requires s.Valid() && Fits(s, g) && Enumerates(p, g, xs) && ObjectDestination(g, s.from, s.to).Some?
    ensures if Occupied(p, ObjectDestination(g, s.from, s.to).value) then MoveGroup(p, s, g, xs) == p
            else HasMoved(p, MoveGroup(p, s, g, xs), s, xs)
  {
    if !Occupied(p, ObjectDestination(g, s.from, s.to).value) {
      CanMoveGroup(p, s, g, xs);
      VisitsMove(p, s, xs);
    }
  }

  /** How far a move has come determines state and record. */
  lemma HasMovedUnique<V>(p: Progress<V>, q: Progress<V>, r: Progress<V>, s: Statement,
                          xs: seq<AbsResourceInstance>, ys: seq<AbsResourceInstance>)
    requires s.Valid() && CanMove(p, s, xs) && HasMoved(p, q, s, xs) && HasMoved(p, r, s, ys)
    requires forall x :: x in xs <==> x in ys
    ensures q == r
  {
    forall y ensures SameAt(q, r, y) {
      if Touches(s, xs, y) {
        var x :| x in xs && (y == x || y == AddressAfter(x, s));
        assert Arrived(p, q, x, AddressAfter(x, s)) && Arrived(p, r, x, AddressAfter(x, s));
      } else {
        assert !Touches(s, ys, y);
        assert SameAt(p, q, y) && SameAt(p, r, y);
      }
    }
    SameEverywhere(q, r);
  }

  lemma SameEverywhere<V>(q: Progress<V>, r: Progress<V>)
    requires forall y :: SameAt(q, r, y)
    ensures q == r
  {
    assert q.state.Keys == r.state.Keys && q.changes.Keys == r.changes.Keys by {
      forall y ensures (y in q.state <==> y in r.state) && (y in q.changes <==> y in r.changes) {
        assert SameAt(q, r, y);
      }
    }
    forall y | y in q.state ensures q.state[y] == r.state[y] {
      assert SameAt(q, r, y);
    }
    forall y | y in q.changes ensures q.changes[y] == r.changes[y] {
      assert SameAt(q, r, y);
    }
    assert q.state == r.state && q.changes == r.changes;
  }

  /** Relocating the same instances in another order changes nothing. */
  lemma BatchOrderImmaterial<V>(
      p: Progress<V>, s: Statement, xs: seq<AbsResourceInstance>, ys: seq<AbsResourceInstance>)
    requires s.Valid() && CanMove(p, s, xs) && (forall x :: x in xs <==> x in ys)
    ensures Execute(p, AttemptsOf(s, xs)) == Execute(p, AttemptsOf(s, ys))
  {
    VisitsMove(p, s, xs);
    VisitsMove(p, s, ys);
    HasMovedUnique(p, Execute(p, AttemptsOf(s, xs)), Execute(p, AttemptsOf(s, ys)), s, xs, ys);
  }

  /** In whatever order the instances of an object are iterated, its move ends in the same state and record. */
  lemma IterationImmaterial<V>(
      p: Progress<V>, s: Statement, g: Object, xs: seq<AbsResourceInstance>, ys: seq<AbsResourceInstance>)
    requires s.Valid() && Fits(s, g) && Enumerates(p, g, xs) && Enumerates(p, g, ys)
    ensures MoveGroup(p, s, g, xs) == MoveGroup(p, s, g, ys)
  {
    var d := ObjectDestination(g, s.from, s.to);
    if d.Some? && !Occupied(p, d.value) {
      CanMoveGroup(p, s, g, xs);
      BatchOrderImmaterial(p, s, xs, ys);
    }
  }

  /** The elements of a set in some order. */
  ghost function Listed<T(!new)>(items: set<T>): (r: seq<T>)
    ensures forall x :: x in r <==> x in items
  {
    if items == {} then [] else
    var x :| x in items;
    [x] + Listed(items - {x})
  }

  ghost function Instances<V>(p: Progress<V>, g: Object): (xs: seq<AbsResourceInstance>)
    ensures Enumerates(p, g, xs)
  {
    Listed(set x | x in p.state && Covers(g, x))
  }

  /** The move of a whole object, in whatever order. */
  ghost function MoveWhole<V>(p: Progress<V>, s: Statement, g: Object): Progress<V>
    requires s.Valid()
  {
    MoveGroup(p, s, g, Instances(p, g))
  }

  // ---------------------------------------------------------------- the order of whole moves

  /** Moving objects of one statement touches nothing outside its two endpoints. */
  lemma {:induction false} UntouchedOutside<V>(
      p: Progress<V>, s: Statement, xs: seq<AbsResourceInstance>, y: AbsResourceInstance)
    requires s.Valid() && !Within(y, s.from) && !Within(y, s.to)
    ensures y in Execute(p, AttemptsOf(s, xs)).state <==> y in p.state
  {
    if xs != [] {
      var init, x := xs[..|xs| - 1], xs[|xs| - 1];
      assert AttemptsOf(s, xs)[..|xs| - 1] == AttemptsOf(s, init);
      UntouchedOutside(p, s, init, y);
      if InstanceDestination(x, s.from, s.to).Some? {
        MovesBetween(x, s);
      }
    }
  }

  /** What one statement needs to know of the state is not changed by relocations of the other. */
  lemma SameView<V>(p: Progress<V>, a: Statement, b: Statement, ys: seq<AbsResourceInstance>, x: AbsResourceInstance)
    requires a.Valid() && b.Valid() && Disjoint(a, b) && (Within(x, a.from) || Within(x, a.to))
    ensures x in Execute(p, AttemptsOf(b, ys)).state <==> x in p.state
  {
    if Within(x, a.from) {
      OutsideOther(x, a.from, b);
    } else {
      OutsideOther(x, a.to, b);
    }
    UntouchedOutside(p, b, ys, x);
  }

  lemma SameGroupView<V>(p: Progress<V>, a: Statement, g: Object, b: Statement, ys: seq<AbsResourceInstance>)
    requires a.Valid() && b.Valid() && Fits(a, g) && Disjoint(a, b) && ObjectDestination(g, a.from, a.to).Some?
    ensures var q, d := Execute(p, AttemptsOf(b, ys)), ObjectDestination(g, a.from, a.to).value;
            && (forall x | Covers(g, x) :: x in q.state <==> x in p.state)
            && (Occupied(q, d) <==> Occupied(p, d))
  {
    var q, d := Execute(p, AttemptsOf(b, ys)), ObjectDestination(g, a.from, a.to).value;
    forall x | Covers(g, x) ensures x in q.state <==> x in p.state {
      InstancesFollow(a, g, x);
      WithinIsMoved(x, a.from, a.to);
      SameView(p, a, b, ys, x);
    }
    forall x | Covers(d, x) ensures x in q.state <==> x in p.state {
      CoveredIsDestination(a, g, x);
      SameView(p, a, b, ys, x);
    }
  }

  lemma OutsideOther(x: AbsResourceInstance, e: Endpoint, b: Statement)
    requires WellFormed(e) && b.Valid() && Within(x, e) && !Related(e, b.from) && !Related(e, b.to)
    ensures !Within(x, b.from) && !Within(x, b.to)
  {
    RelatedExact(e, b.from);
    RelatedExact(e, b.to);
  }

  /** The two orders of moving one object by each statement never differ, neither in the state nor in the recorded
      changes, whatever the state holds. */
  ghost predicate GroupMovesCommute<V(!new)>(a: Statement, b: Statement)
    requires a.Valid() && b.Valid()
  {
    forall p: Progress<V>, g, h | Fits(a, g) && Fits(b, h) ::
      MoveWhole(MoveWhole(p, a, g), b, h) == MoveWhole(MoveWhole(p, b, h), a, g)
  }

  /** A move amounts to nothing or to a batch of relocations that are all possible. */
  lemma MoveIsBatch<V>(p: Progress<V>, s: Statement, g: Object) returns (xs: seq<AbsResourceInstance>)
    requires s.Valid() && Fits(s, g)
    ensures MoveWhole(p, s, g) == Execute(p, AttemptsOf(s, xs))
    ensures xs == [] || (ObjectDestination(g, s.from, s.to).Some? && xs == Instances(p, g))
  {
    var d := ObjectDestination(g, s.from, s.to);
    xs := if d.None? || Occupied(p, d.value) then [] else Instances(p, g);
  }

  /** A disjoint statement does not change what a move amounts to. */
  lemma SameMoveAfter<V>(p: Progress<V>, a: Statement, g: Object, b: Statement, ys: seq<AbsResourceInstance>)
    returns (xs: seq<AbsResourceInstance>)
    requires a.Valid() && b.Valid() && Fits(a, g) && Disjoint(a, b)
    ensures MoveWhole(p, a, g) == Execute(p, AttemptsOf(a, xs))
    ensures var q := Execute(p, AttemptsOf(b, ys)); MoveWhole(q, a, g) == Execute(q, AttemptsOf(a, xs))
  {
    var q, d := Execute(p, AttemptsOf(b, ys)), ObjectDestination(g, a.from, a.to);
    xs := if d.None? || Occupied(p, d.value) then [] else Instances(p, g);
    if d.Some? {
      SameGroupView(p, a, g, b, ys);
      if !Occupied(p, d.value) {
        IterationImmaterial(q, a, g, xs, Instances(q, g));
      }
    }
  }

  lemma DisjointGroupsCommute<V>(p: Progress<V>, a: Statement, g: Object, b: Statement, h: Object)
    requires a.Valid() && b.Valid() && Disjoint(a, b) && Fits(a, g) && Fits(b, h)
    ensures MoveWhole(MoveWhole(p, a, g), b, h) == MoveWhole(MoveWhole(p, b, h), a, g)
  {
    var ys := MoveIsBatch(p, b, h);
    var xs := SameMoveAfter(p, a, g, b, ys);
    var zs := SameMoveAfter(p, b, h, a, xs);
    DisjointCompatible(a, b);
    CompatibleBatchesCommute(p, a, xs, b, zs);
  }

  // ---------------------------------------------------------------- statements that get in each other's way

  lemma GroupIsDetermined(s: Statement, g: Object, x: AbsResourceInstance)
    requires Fits(s, g)
    ensures Covers(g, x) <==> g == GroupOf(s.from, x)
  {
  }

  /** A move of an object of which there is nothing in the state. */
  lemma NothingToMove<V>(p: Progress<V>, s: Statement, g: Object)
    requires s.Valid() && Fits(s, g) && (forall u | u in p.state :: !Covers(g, u) || !Within(u, s.from))
    ensures MoveWhole(p, s, g) == p
  {
    if ObjectDestination(g, s.from, s.to).Some? {
      forall u | u in p.state ensures !Covers(g, u) {
        if Covers(g, u) {
          InstancesFollow(s, g, u);
          WithinIsMoved(u, s.from, s.to);
        }
      }
      IterationImmaterial(p, s, g, Instances(p, g), []);
    }
  }

  /** Only an object that stays where it is has one of its instances at its own destination. */
  lemma SelfCovered(s: Statement, g: Object, x: AbsResourceInstance)
    requires s.Valid() && Fits(s, g) && Covers(g, x) && ObjectDestination(g, s.from, s.to).Some?
    requires Covers(ObjectDestination(g, s.from, s.to).value, x)
    ensures InstanceDestination(x, s.from, s.to) == Some(x)
  {
    match g {
      case ModuleObject(m) =>
        assert AbsResourceInstance(x.path, x.local) == x;
      case ResourceObject(r) =>
        assert InstanceOf(x.ContainingResource(), x.local.key) == x;
      case InstanceObject(ri) =>
    }
  }

  lemma ExecuteOne<V>(p: Progress<V>, s: Statement, x: AbsResourceInstance)
    requires s.Valid()
    ensures Execute(p, AttemptsOf(s, [x])) == Relocate(p, s, x)
  {
    var one := AttemptsOf(s, [x]);
    assert one[..|one| - 1] == [];
    assert Execute(p, one[..|one| - 1]) == p;
  }

  /** The only thing in the state that a statement could touch moves to its free destination. */
  lemma MovesAlone<V>(p: Progress<V>, s: Statement, x: AbsResourceInstance)
    requires s.Valid() && x in p.state && Displaces(s, x) && AddressAfter(x, s) !in p.state
    requires forall u | u in p.state && u != x :: !Within(u, s.from) && !Within(u, s.to)
    ensures Fits(s, GroupOf(s.from, x)) && Covers(GroupOf(s.from, x), x)
    ensures MoveWhole(p, s, GroupOf(s.from, x)) == Transfer(p, x, AddressAfter(x, s))
  {
    var g := GroupOf(s.from, x);
    InstancesFollow(s, g, x);
    var d := ObjectDestination(g, s.from, s.to).value;
    forall u | u in p.state ensures !Covers(d, u) && (Covers(g, u) ==> u == x) {
      if u == x {
        if Covers(d, x) {
          SelfCovered(s, g, x);
        }
      } else {
        NeitherCovers(s, g, u);
      }
    }
    assert !Occupied(p, d);
    MovesOne(p, s, g, x);
  }

  /** A group of which the state holds one object moves with it. */
  lemma MovesOne<V>(p: Progress<V>, s: Statement, g: Object, x: AbsResourceInstance)
    requires s.Valid() && Fits(s, g) && x in p.state && Covers(g, x) && Displaces(s, x)
    requires forall u | u in p.state && Covers(g, u) :: u == x
    requires ObjectDestination(g, s.from, s.to).Some? && !Occupied(p, ObjectDestination(g, s.from, s.to).value)
    ensures MoveWhole(p, s, g) == Transfer(p, x, AddressAfter(x, s))
  {
    IterationImmaterial(p, s, g, Instances(p, g), [x]);
    ExecuteOne(p, s, x);
    InstancesFollow(s, g, x);
  }

  lemma NeitherCovers(s: Statement, g: Object, u: AbsResourceInstance)
    requires s.Valid() && Fits(s, g) && ObjectDestination(g, s.from, s.to).Some?
    requires !Within(u, s.from) && !Within(u, s.to)
    ensures !Covers(g, u) && !Covers(ObjectDestination(g, s.from, s.to).value, u)
  {
    if Covers(g, u) {
      InstancesFollow(s, g, u);
      WithinIsMoved(u, s.from, s.to);
    }
    if Covers(ObjectDestination(g, s.from, s.to).value, u) {
      CoveredIsDestination(s, g, u);
    }
  }

  /** The single object of a state stays or goes to its destination. */
  lemma SingleObject<V>(p: Progress<V>, s: Statement, g: Object, u: AbsResourceInstance)
    requires s.Valid() && Fits(s, g) && p.state.Keys == {u}
    ensures MoveWhole(p, s, g).state.Keys == if Covers(g, u) then {AddressAfter(u, s)} else {u}
  {
    if Covers(g, u) && Displaces(s, u) {
      GroupIsDetermined(s, g, u);
      MovesAlone(p, s, u);
    } else if Covers(g, u) && Within(u, s.from) {
      WithinIsMoved(u, s.from, s.to);
      InstancesFollow(s, g, u);
      assert Occupied(p, ObjectDestination(g, s.from, s.to).value);
    } else {
      NothingToMove(p, s, g);
      WithinIsMoved(u, s.from, s.to);
    }
  }

  /** Two statements that a common object is led apart by, the second of which does not find it where the first
      one puts it. */
  lemma DivergingGroups<V>(a: Statement, b: Statement, x: AbsResourceInstance, v: V)
    requires a.Valid() && b.Valid() && Displaces(a, x) && Displaces(b, x)
    requires AddressAfter(x, a) != AddressAfter(x, b) && !Within(AddressAfter(x, a), b.from)
    ensures var p, g, h := Progress(map[x := v], map[]), GroupOf(a.from, x), GroupOf(b.from, x);
            && Fits(a, g) && Fits(b, h)
            && MoveWhole(MoveWhole(p, a, g), b, h) != MoveWhole(MoveWhole(p, b, h), a, g)
  {
    var p, g, h := Progress(map[x := v], map[]), GroupOf(a.from, x), GroupOf(b.from, x);
    var y := AddressAfter(x, b);
    SingleObject(p, a, g, x);
    NothingToMove(MoveWhole(p, a, g), b, h);
    SingleObject(p, b, h, x);
    SingleObject(MoveWhole(p, b, h), a, g, y);
    if Covers(g, y) {
      DifferentDestinations(a, g, x, y);
    }
  }

  /** Different instances of an object go to different places. */
  lemma DifferentDestinations(s: Statement, g: Object, x: AbsResourceInstance, y: AbsResourceInstance)
    requires s.Valid() && Fits(s, g) && Covers(g, x) && Covers(g, y) && x != y && Displaces(s, x)
    ensures AddressAfter(x, s) != AddressAfter(y, s)
  {
    InstancesFollow(s, g, x);
    InstancesFollow(s, g, y);
    InstanceMoveInvertible(x, s.from, s.to);
    InstanceMoveInvertible(y, s.from, s.to);
  }

  /** Two statements of which one puts an object, that the other does not start from, where the other starts. */
  lemma ChainedGroups<V>(a: Statement, b: Statement, x: AbsResourceInstance, v: V)
    requires a.Valid() && b.Valid() && Displaces(a, x) && Displaces(b, AddressAfter(x, a)) && !Within(x, b.from)
    ensures var p, g, h := Progress(map[x := v], map[]), GroupOf(a.from, x), GroupOf(b.from, AddressAfter(x, a));
            && Fits(a, g) && Fits(b, h)
            && MoveWhole(MoveWhole(p, a, g), b, h) != MoveWhole(MoveWhole(p, b, h), a, g)
  {
    var z := AddressAfter(x, a);
    var p, g, h := Progress(map[x := v], map[]), GroupOf(a.from, x), GroupOf(b.from, z);
    SingleObject(p, a, g, x);
    SingleObject(MoveWhole(p, a, g), b, h, z);
    NothingToMove(p, b, h);
  }

  /** Of statements that do not depend on each other, one that is nested in the start of the other does not
      start where that other one ends. */
  lemma NestedIsNotChained(a: Statement, b: Statement)
    requires a.Valid() && b.Valid() && !StatementDependsOn(a, b) && !StatementDependsOn(b, a)
    requires NestedWithin(b.from, a.from)
    ensures !Related(a.to, b.from)
  {
    ChainSymmetric(a.to, b.from);
  }

  /** Two objects that statements with a common destination would take to the same address. */
  lemma CompetingObjects(a: Statement, b: Statement)
    returns (x: AbsResourceInstance, y: AbsResourceInstance, z: AbsResourceInstance)
    requires a.Valid() && b.Valid() && Related(a.to, b.to)
    requires !Related(a.from, b.from) && !Related(a.to, b.from) && !Related(a.from, b.to)
    ensures InstanceDestination(x, a.from, a.to) == Some(z) && InstanceDestination(y, b.from, b.to) == Some(z)
    ensures !Within(y, a.from) && !Within(y, a.to) && !Within(x, b.from) && !Within(x, b.to)
    ensures x != y && z != x && z != y
  {
    RelatedExact(a.to, b.to);
    z :| Within(z, a.to) && Within(z, b.to);
    x := Origin(z, a);
    y := Origin(z, b);
    OutsideOther(y, b.from, a);
    OutsideOther(x, a.from, b);
  }

  /** After the first move the destination of the second is taken. */
  lemma StaysBehind<V>(
      p: Progress<V>, a: Statement, x: AbsResourceInstance, b: Statement, y: AbsResourceInstance,
      z: AbsResourceInstance)
    requires a.Valid() && b.Valid() && p.state.Keys == {x, y} && x != y && z != x && z != y
    requires InstanceDestination(x, a.from, a.to) == Some(z) && InstanceDestination(y, b.from, b.to) == Some(z)
    requires !Within(y, a.from) && !Within(y, a.to)
    ensures var q := MoveWhole(MoveWhole(p, a, GroupOf(a.from, x)), b, GroupOf(b.from, y)).state; x !in q && y in q
  {
    var h := GroupOf(b.from, y);
    MovesAlone(p, a, x);
    var q := MoveWhole(p, a, GroupOf(a.from, x));
    InstancesFollow(b, h, y);
    assert z in q.state && Covers(ObjectDestination(h, b.from, b.to).value, z);
    assert Occupied(q, ObjectDestination(h, b.from, b.to).value);
  }

  lemma CompetingGroups<V>(a: Statement, b: Statement, v: V) returns (p: Progress<V>, g: Object, h: Object)
    requires a.Valid() && b.Valid() && Related(a.to, b.to)
    requires !Related(a.from, b.from) && !Related(a.to, b.from) && !Related(a.from, b.to)
    ensures Fits(a, g) && Fits(b, h)
    ensures MoveWhole(MoveWhole(p, a, g), b, h) != MoveWhole(MoveWhole(p, b, h), a, g)
  {
    var x, y, z := CompetingObjects(a, b);
    p := Progress(map[x := v, y := v], map[]);
    g, h := GroupOf(a.from, x), GroupOf(b.from, y);
    EachStaysBehind(p, a, x, b, y, z);
  }

  lemma EachStaysBehind<V>(
      p: Progress<V>, a: Statement, x: AbsResourceInstance, b: Statement, y: AbsResourceInstance,
      z: AbsResourceInstance)
    requires a.Valid() && b.Valid() && p.state.Keys == {x, y} && x != y && z != x && z != y
    requires InstanceDestination(x, a.from, a.to) == Some(z) && InstanceDestination(y, b.from, b.to) == Some(z)
    requires !Within(y, a.from) && !Within(y, a.to) && !Within(x, b.from) && !Within(x, b.to)
    ensures var g, h := GroupOf(a.from, x), GroupOf(b.from, y);
            MoveWhole(MoveWhole(p, a, g), b, h) != MoveWhole(MoveWhole(p, b, h), a, g)
  {
    StaysBehind(p, a, x, b, y, z);
    StaysBehind(p, b, y, a, x, z);
  }

  lemma ChainedGroupsClash<V>(a: Statement, b: Statement, v: V) returns (p: Progress<V>, g: Object, h: Object)
    requires a.Valid() && b.Valid() && a.from != a.to && b.from != b.to
    requires !Related(a.from, b.from) && Related(a.to, b.from)
    ensures Fits(a, g) && Fits(b, h)
    ensures MoveWhole(MoveWhole(p, a, g), b, h) != MoveWhole(MoveWhole(p, b, h), a, g)
  {
    RelatedExact(a.to, b.from);
    RelatedExact(a.from, b.from);
    var z :| Within(z, a.to) && Within(z, b.from);
    var x := Origin(z, a);
    DisplacesAll(a, x);
    DisplacesAll(b, z);
    ChainedGroups(a, b, x, v);
    p, g, h := Progress(map[x := v], map[]), GroupOf(a.from, x), GroupOf(b.from, z);
  }

  lemma NestedGroupsClash<V>(a: Statement, b: Statement, v: V) returns (p: Progress<V>, g: Object, h: Object)
    requires a.Valid() && b.Valid() && a.from != a.to && b.from != b.to
    requires !StatementDependsOn(a, b) && !StatementDependsOn(b, a) && NestedWithin(b.from, a.from)
    ensures Fits(a, g) && Fits(b, h)
    ensures MoveWhole(MoveWhole(p, a, g), b, h) != MoveWhole(MoveWhole(p, b, h), a, g)
  {
    RelatedExact(a.from, b.from);
    var x :| Within(x, a.from) && Within(x, b.from);
    NestedStartsDiverge(a, b, x);
    NestedIsNotChained(a, b);
    RelatedExact(a.to, b.from);
    DisplacesAll(a, x);
    DisplacesAll(b, x);
    MovesBetween(x, a);
    DivergingGroups(a, b, x, v);
    p, g, h := Progress(map[x := v], map[]), GroupOf(a.from, x), GroupOf(b.from, x);
  }

  lemma RelatedGroupsClash<V>(a: Statement, b: Statement, v: V) returns (p: Progress<V>, g: Object, h: Object)
    requires a.Valid() && b.Valid() && !CanChainFrom(a.from, b.from) && a.from != a.to && b.from != b.to
    requires !StatementDependsOn(a, b) && !StatementDependsOn(b, a) && !Disjoint(a, b)
    ensures Fits(a, g) && Fits(b, h)
    ensures MoveWhole(MoveWhole(p, a, g), b, h) != MoveWhole(MoveWhole(p, b, h), a, g)
  {
    ChainSymmetric(a.from, b.from);
    if NestedWithin(b.from, a.from) {
      p, g, h := NestedGroupsClash(a, b, v);
    } else if NestedWithin(a.from, b.from) {
      p, h, g := NestedGroupsClash(b, a, v);
    } else if Related(a.to, b.from) {
      p, g, h := ChainedGroupsClash(a, b, v);
    } else if Related(a.from, b.to) {
      p, h, g := ChainedGroupsClash(b, a, v);
    } else {
      p, g, h := CompetingGroups(a, b, v);
    }
  }

  /** A statement that leads from an address to itself moves nothing. */
  lemma IdleMovesNothing<V>(p: Progress<V>, s: Statement, g: Object)
    requires s.Valid() && Fits(s, g) && s.from == s.to
    ensures MoveWhole(p, s, g) == p
  {
    if u :| u in p.state && Covers(g, u) && Within(u, s.from) {
      WithinIsMoved(u, s.from, s.to);
      DisplacesAll(s, u);
      InstancesFollow(s, g, u);
      assert Occupied(p, ObjectDestination(g, s.from, s.to).value);
    } else {
      NothingToMove(p, s, g);
    }
  }

  /** With module instances and resources moved, and blocked, as wholes: of statements that do not depend on each
      other and do not start from one address, the order is immaterial if and only if one of them does nothing
      or they touch nothing in common. Unless one is exempt, that is: their destinations do not chain. */
  lemma IndependentGroupsCommute<V(!new)>(a: Statement, b: Statement, v: V)
    requires a.Valid() && b.Valid() && !CanChainFrom(a.from, b.from)
    requires !StatementDependsOn(a, b) && !StatementDependsOn(b, a)
    ensures GroupMovesCommute<V>(a, b) <==> a.from == a.to || b.from == b.to || Disjoint(a, b)
    ensures !Exempt(a, b) && !Exempt(b, a) ==> (GroupMovesCommute<V>(a, b) <==> !CanChainFrom(a.to, b.to))
  {
    if a.from == a.to || b.from == b.to || Disjoint(a, b) {
      forall p: Progress<V>, g, h | Fits(a, g) && Fits(b, h)
        ensures MoveWhole(MoveWhole(p, a, g), b, h) == MoveWhole(MoveWhole(p, b, h), a, g)
      {
        if a.from == a.to {
          IdleMovesNothing(p, a, g);
          IdleMovesNothing(MoveWhole(p, b, h), a, g);
        } else if b.from == b.to {
          IdleMovesNothing(p, b, h);
          IdleMovesNothing(MoveWhole(p, a, g), b, h);
        } else {
          DisjointGroupsCommute(p, a, g, b, h);
        }
      }
    } else {
      var p, g, h := RelatedGroupsClash(a, b, v);
    }
    if !Exempt(a, b) && !Exempt(b, a) {
      IndependentAreUnrelated(a, b);
      ChainSymmetric(a.to, b.to);
      assert Related(a.to, b.to) <==> CanChainFrom(a.to, b.to);
    }
  }
}
