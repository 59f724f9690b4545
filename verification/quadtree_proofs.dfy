/** What the quadtree of `QuadTrees` computes, stated against the multiset of stored items.

    - `QueryExact`: a query returns exactly the stored items whose position lies in the
      range, whatever the shape of the tree; pruning on `Intersect` discards nothing.
    - `InsertCorrect` and its companions: when an insertion returns, it adds the item exactly
      when the item lies in the root boundary and preserves the structural invariant.
    - `InsertFuelMonotone`: a returning insertion returns the same tree with any more fuel,
      so `None` means "has not returned yet", never a different answer.
    - `StackedBuildDiverges`: over exact reals, `capacity + 2` items at one position make
      the source's insertion run forever; here that is `None` for every amount of fuel. */
module QuadTreeProofs {
  import opened Options
  import opened Geometry
  import opened QuadTrees
  import opened Filtering

  /** Every element of a valid tree lies in the tree's boundary. */
  lemma {:induction false} ElementsInBoundary<T>(t: QuadTree<T>, pos: T -> Vec2)
    requires Valid(t, pos)
    ensures forall x <- Elements(t) :: Contains(t.boundary, pos(x))
    decreases t
  {
    match t.children
    case None =>
      assert Elements(t) == t.items;
    case Some(c) =>
      ElementsInBoundary(c.ne, pos);
      ElementsInBoundary(c.nw, pos);
      ElementsInBoundary(c.se, pos);
      ElementsInBoundary(c.sw, pos);
      assert Elements(t) == Elements(c.ne) + Elements(c.nw) + Elements(c.se) + Elements(c.sw);
      forall x <- Elements(t) ensures Contains(t.boundary, pos(x)) {
        QuadrantsTile(t.boundary, pos(x));
        if x in Elements(c.ne) {
          assert Contains(NE(t.boundary), pos(x));
        } else if x in Elements(c.nw) {
          assert Contains(NW(t.boundary), pos(x));
        } else if x in Elements(c.se) {
          assert Contains(SE(t.boundary), pos(x));
        } else {
          assert Contains(SW(t.boundary), pos(x));
        }
      }
  }

  /** Pruning is sound: a node whose boundary does not intersect the range stores nothing
      in the range. */
  lemma PruneSound<T>(t: QuadTree<T>, range: Rect, pos: T -> Vec2)
    requires Valid(t, pos)
    requires Intersect(t.boundary, range).None?
    ensures Filter(Elements(t), Inside(range, pos)) == []
  {
    var f := Filter(Elements(t), Inside(range, pos));
    if f != [] {
      var x := f[0];
      assert Inside(range, pos)(x);
      assert x in multiset(f);
      assert x in Elements(t);
      ElementsInBoundary(t, pos);
      assert false;
    }
  }

  /** `query(range)` is exactly the stored items in `range`, in traversal order. */
  lemma {:induction false} QueryExact<T>(t: QuadTree<T>, range: Rect, pos: T -> Vec2)
    requires Valid(t, pos)
    ensures Query(t, range, pos) == Filter(Elements(t), Inside(range, pos))
    decreases t
  {
    if Intersect(t.boundary, range).None? {
      PruneSound(t, range, pos);
    } else {
      match t.children
      case None =>
        assert Elements(t) == t.items;
      case Some(c) =>
        QueryExact(c.ne, range, pos);
        QueryExact(c.nw, range, pos);
        QueryExact(c.se, range, pos);
        QueryExact(c.sw, range, pos);
        assert Elements(t) == Elements(c.ne) + Elements(c.nw) + Elements(c.se) + Elements(c.sw);
        FilterConcat(Elements(c.ne), Elements(c.nw), Inside(range, pos));
        FilterConcat(Elements(c.ne) + Elements(c.nw), Elements(c.se), Inside(range, pos));
        FilterConcat(Elements(c.ne) + Elements(c.nw) + Elements(c.se), Elements(c.sw), Inside(range, pos));
    }
  }

  /** The multiset an insertion of `item` adds to a tree over `b`. */
  function Added<T(==)>(b: Rect, item: T, pos: T -> Vec2): multiset<T> {
    if Contains(b, pos(item)) then multiset{item} else multiset{}
  }

  /** A returning insertion adds the item exactly when it lies in the boundary, keeps the
      invariant, and never undoes a split. */
  lemma {:induction false} InsertCorrect<T>(t: QuadTree<T>, item: T, pos: T -> Vec2, fuel: nat)
    requires Valid(t, pos)
    requires Insert(t, item, pos, fuel).Some?
    ensures Valid(Insert(t, item, pos, fuel).value, pos)
    ensures multiset(Elements(Insert(t, item, pos, fuel).value))
            == multiset(Elements(t)) + Added(t.boundary, item, pos)
    ensures t.divided ==> Insert(t, item, pos, fuel).value.divided
    decreases fuel, 0, 0
  {
    var r := Insert(t, item, pos, fuel).value;
    if !Contains(t.boundary, pos(item)) {
    } else if t.capacity >= |t.items| && !t.divided {
      assert Elements(t) == t.items;
      assert Elements(r) == t.items + [item];
    } else {
      var t1 := if t.divided then t else Subdivide(t, pos, fuel - 1).value;
      if !t.divided {
        SubdivideCorrect(t, pos, fuel - 1);
      }
      var c := t1.children.value;
      InsertIntoChildrenCorrect(c, t1.boundary, t1.capacity, item, pos, fuel - 1);
      var c1 := InsertIntoChildren(c, item, pos, fuel - 1).value;
      assert r == t1.(children := Some(c1));
      assert Elements(t1) == ChildElements(c);
      assert Elements(r) == ChildElements(c1);
    }
  }

  /** After `subdivide` the node is divided, holds no items of its own, and its children
      hold exactly what it held. */
  lemma {:induction false} SubdivideCorrect<T>(t: QuadTree<T>, pos: T -> Vec2, fuel: nat)
    requires Valid(t, pos) && !t.divided
    requires Subdivide(t, pos, fuel).Some?
    ensures Valid(Subdivide(t, pos, fuel).value, pos)
    ensures multiset(Elements(Subdivide(t, pos, fuel).value)) == multiset(Elements(t))
    decreases fuel, 3, 0
  {
    var c0: Children<T> := NewChildren(t.boundary, t.capacity);
    NewChildrenValid(t.boundary, t.capacity, pos);
    RedistributeCorrect(c0, t.items, t.boundary, t.capacity, pos, fuel);
    assert Elements(t) == t.items;
  }

  lemma {:induction false} RedistributeCorrect<T>(c: Children<T>, xs: seq<T>, b: Rect, capacity: nat, pos: T -> Vec2, fuel: nat)
    requires ChildrenValid(c, b, capacity, pos)
    requires forall x <- xs :: Contains(b, pos(x))
    requires Redistribute(c, xs, pos, fuel).Some?
    ensures ChildrenValid(Redistribute(c, xs, pos, fuel).value, b, capacity, pos)
    ensures multiset(ChildElements(Redistribute(c, xs, pos, fuel).value))
            == multiset(ChildElements(c)) + multiset(xs)
    decreases fuel, 2, |xs|
  {
    if xs != [] {
      var step := InsertIntoChildren(c, xs[0], pos, fuel);
      assert step.Some? && Redistribute(c, xs, pos, fuel) == Redistribute(step.value, xs[1..], pos, fuel);
      InsertIntoChildrenCorrect(c, b, capacity, xs[0], pos, fuel);
      RedistributeCorrect(step.value, xs[1..], b, capacity, pos, fuel);
      var m0 := multiset(ChildElements(c));
      var m1 := multiset(ChildElements(step.value));
      var m2 := multiset(ChildElements(Redistribute(c, xs, pos, fuel).value));
      MultisetStep(m0, m1, m2, xs);
    }
  }

  lemma MultisetStep<T>(m0: multiset<T>, m1: multiset<T>, m2: multiset<T>, xs: seq<T>)
    requires xs != []
    requires m1 == m0 + multiset{xs[0]} && m2 == m1 + multiset(xs[1..])
    ensures m2 == m0 + multiset(xs)
  {
    assert xs == [xs[0]] + xs[1..];
  }

  lemma ChildMultiset<T>(c: Children<T>)
    ensures multiset(ChildElements(c))
            == multiset(Elements(c.ne)) + multiset(Elements(c.nw)) + multiset(Elements(c.se)) + multiset(Elements(c.sw))
  {
  }

  lemma SumOfFour<T>(n0: multiset<T>, n1: multiset<T>, n2: multiset<T>, n3: multiset<T>,
                     o0: multiset<T>, o1: multiset<T>, o2: multiset<T>, o3: multiset<T>,
                     a0: multiset<T>, a1: multiset<T>, a2: multiset<T>, a3: multiset<T>, x: multiset<T>)
    requires n0 == o0 + a0 && n1 == o1 + a1 && n2 == o2 + a2 && n3 == o3 + a3
    requires a0 + a1 + a2 + a3 == x
    ensures n0 + n1 + n2 + n3 == (o0 + o1 + o2 + o3) + x
  {
  }

  /** Forwarding an in-bounds item to all four quadrants stores it exactly once. */
  lemma {:induction false} InsertIntoChildrenCorrect<T>(c: Children<T>, b: Rect, capacity: nat, item: T, pos: T -> Vec2, fuel: nat)
    requires ChildrenValid(c, b, capacity, pos)
    requires Contains(b, pos(item))
    requires InsertIntoChildren(c, item, pos, fuel).Some?
    ensures ChildrenValid(InsertIntoChildren(c, item, pos, fuel).value, b, capacity, pos)
    ensures multiset(ChildElements(InsertIntoChildren(c, item, pos, fuel).value))
            == multiset(ChildElements(c)) + multiset{item}
    decreases fuel, 1, 0
  {
    var ne := Insert(c.ne, item, pos, fuel);
    var nw := Insert(c.nw, item, pos, fuel);
    var se := Insert(c.se, item, pos, fuel);
    var sw := Insert(c.sw, item, pos, fuel);
    assert ne.Some? && nw.Some? && se.Some? && sw.Some?;
    var r := InsertIntoChildren(c, item, pos, fuel).value;
    assert r == Children(nw.value, ne.value, sw.value, se.value);
    InsertCorrect(c.ne, item, pos, fuel);
    InsertCorrect(c.nw, item, pos, fuel);
    InsertCorrect(c.se, item, pos, fuel);
    InsertCorrect(c.sw, item, pos, fuel);
    QuadrantsTile(b, pos(item));
    assert Added(NE(b), item, pos) + Added(NW(b), item, pos) + Added(SE(b), item, pos)
           + Added(SW(b), item, pos) == multiset{item};
    ChildMultiset(r);
    ChildMultiset(c);
    SumOfFour(multiset(Elements(ne.value)), multiset(Elements(nw.value)), multiset(Elements(se.value)), multiset(Elements(sw.value)),
              multiset(Elements(c.ne)), multiset(Elements(c.nw)), multiset(Elements(c.se)), multiset(Elements(c.sw)),
              Added(NE(b), item, pos), Added(NW(b), item, pos), Added(SE(b), item, pos), Added(SW(b), item, pos),
              multiset{item});
  }

  lemma NewChildrenValid<T>(b: Rect, capacity: nat, pos: T -> Vec2)
    ensures ChildrenValid(NewChildren(b, capacity), b, capacity, pos)
  {
    var c: Children<T> := NewChildren(b, capacity);
    assert Valid(c.nw, pos) && Valid(c.ne, pos) && Valid(c.sw, pos) && Valid(c.se, pos);
  }

  // ----- Fuel only decides whether the call has returned yet -----

  lemma {:induction false} InsertFuelMonotone<T>(t: QuadTree<T>, item: T, pos: T -> Vec2, fuel: nat, more: nat)
    requires fuel <= more
    requires Insert(t, item, pos, fuel).Some?
    ensures Insert(t, item, pos, more) == Insert(t, item, pos, fuel)
    decreases fuel, 0, 0
  {
    if Contains(t.boundary, pos(item)) && !(t.capacity >= |t.items| && !t.divided) {
      if !t.divided {
        SubdivideFuelMonotone(t, pos, fuel - 1, more - 1);
      }
      var t1 := if t.divided then t else Subdivide(t, pos, fuel - 1).value;
      if t1.children.Some? {
        InsertIntoChildrenFuelMonotone(t1.children.value, item, pos, fuel - 1, more - 1);
      }
    }
  }

  lemma {:induction false} SubdivideFuelMonotone<T>(t: QuadTree<T>, pos: T -> Vec2, fuel: nat, more: nat)
    requires fuel <= more
    requires Subdivide(t, pos, fuel).Some?
    ensures Subdivide(t, pos, more) == Subdivide(t, pos, fuel)
    decreases fuel, 3, 0
  {
    RedistributeFuelMonotone(NewChildren(t.boundary, t.capacity), t.items, pos, fuel, more);
  }

  lemma {:induction false} RedistributeFuelMonotone<T>(c: Children<T>, xs: seq<T>, pos: T -> Vec2, fuel: nat, more: nat)
    requires fuel <= more
    requires Redistribute(c, xs, pos, fuel).Some?
    ensures Redistribute(c, xs, pos, more) == Redistribute(c, xs, pos, fuel)
    decreases fuel, 2, |xs|
  {
    if xs != [] {
      var step := InsertIntoChildren(c, xs[0], pos, fuel);
      assert step.Some?;
      InsertIntoChildrenFuelMonotone(c, xs[0], pos, fuel, more);
      RedistributeFuelMonotone(step.value, xs[1..], pos, fuel, more);
    }
  }

  lemma {:induction false} InsertIntoChildrenFuelMonotone<T>(c: Children<T>, item: T, pos: T -> Vec2, fuel: nat, more: nat)
    requires fuel <= more
    requires InsertIntoChildren(c, item, pos, fuel).Some?
    ensures InsertIntoChildren(c, item, pos, more) == InsertIntoChildren(c, item, pos, fuel)
    decreases fuel, 1, 0
  {
    InsertFuelMonotone(c.ne, item, pos, fuel, more);
    InsertFuelMonotone(c.nw, item, pos, fuel, more);
    InsertFuelMonotone(c.se, item, pos, fuel, more);
    InsertFuelMonotone(c.sw, item, pos, fuel, more);
  }

  // ----- Items stacked on one position -----

  /** `q` with its items replaced by `ys` when its boundary contains `p`. */
  function Fill<T>(q: QuadTree<T>, p: Vec2, ys: seq<T>): QuadTree<T> {
    if Contains(q.boundary, p) then q.(items := ys) else q
  }

  function FillAt<T>(c: Children<T>, p: Vec2, ys: seq<T>): Children<T> {
    Children(Fill(c.nw, p, ys), Fill(c.ne, p, ys), Fill(c.sw, p, ys), Fill(c.se, p, ys))
  }

  /** Pushing items that all sit at `p` into fresh quadrants, while they fit, puts all of
      them into the one quadrant that contains `p` and none into the others. */
  lemma {:induction false} RedistributeStacked<T>(b: Rect, capacity: nat, p: Vec2, ys: seq<T>, xs: seq<T>, pos: T -> Vec2, fuel: nat)
    requires |ys| + |xs| <= capacity + 1
    requires forall x <- xs :: pos(x) == p
    ensures Redistribute(FillAt(NewChildren(b, capacity), p, ys), xs, pos, fuel)
            == Some(FillAt(NewChildren(b, capacity), p, ys + xs))
    decreases |xs|
  {
    var c0: Children<T> := NewChildren(b, capacity);
    if xs == [] {
      assert ys + xs == ys;
    } else {
      var x := xs[0];
      var c := FillAt(c0, p, ys);
      assert Insert(c.ne, x, pos, fuel) == Some(Fill(c0.ne, p, ys + [x]));
      assert Insert(c.nw, x, pos, fuel) == Some(Fill(c0.nw, p, ys + [x]));
      assert Insert(c.se, x, pos, fuel) == Some(Fill(c0.se, p, ys + [x]));
      assert Insert(c.sw, x, pos, fuel) == Some(Fill(c0.sw, p, ys + [x]));
      assert InsertIntoChildren(c, x, pos, fuel) == Some(FillAt(c0, p, ys + [x]));
      RedistributeStacked(b, capacity, p, ys + [x], xs[1..], pos, fuel);
      assert ys + [x] + xs[1..] == ys + xs;
    }
  }

  /** Subdividing a node whose items all sit at `p` moves them all into the quadrants
      containing `p`. */
  lemma SubdivideStacked<T>(t: QuadTree<T>, pos: T -> Vec2, fuel: nat, p: Vec2)
    requires |t.items| <= t.capacity + 1
    requires forall x <- t.items :: pos(x) == p
    ensures Subdivide(t, pos, fuel)
            == Some(t.(children := Some(FillAt(NewChildren(t.boundary, t.capacity), p, t.items)), items := [], divided := true))
  {
    var c0: Children<T> := NewChildren(t.boundary, t.capacity);
    assert FillAt(c0, p, []) == c0;
    RedistributeStacked(t.boundary, t.capacity, p, [], t.items, pos, fuel);
    assert [] + t.items == t.items;
    assert Redistribute(c0, t.items, pos, fuel) == Some(FillAt(c0, p, t.items));
  }

  /** The source's non-termination over exact reals: an undivided node holding
      `capacity + 1` items at `p` never finishes inserting another item at `p`, whatever the
      fuel. */
  lemma {:induction false} InsertStackedDiverges<T>(t: QuadTree<T>, item: T, pos: T -> Vec2, fuel: nat, p: Vec2)
    requires !t.divided && |t.items| == t.capacity + 1
    requires forall x <- t.items :: pos(x) == p
    requires pos(item) == p && Contains(t.boundary, p)
    ensures Insert(t, item, pos, fuel) == None
    decreases fuel, 0
  {
    if fuel > 0 {
      SubdivideStacked(t, pos, fuel - 1, p);
      ChildrenStackedDiverge(t.boundary, t.capacity, t.items, item, pos, fuel - 1, p);
    }
  }

  /** After such a node splits, the quadrant holding the stack diverges in turn. */
  lemma {:induction false} ChildrenStackedDiverge<T>(b: Rect, capacity: nat, ys: seq<T>, item: T, pos: T -> Vec2, fuel: nat, p: Vec2)
    requires |ys| == capacity + 1
    requires forall x <- ys :: pos(x) == p
    requires pos(item) == p && Contains(b, p)
    ensures InsertIntoChildren(FillAt(NewChildren(b, capacity), p, ys), item, pos, fuel) == None
    decreases fuel, 1
  {
    var c := FillAt(NewChildren(b, capacity), p, ys);
    QuadrantsTile(b, p);
    if Contains(NE(b), p) {
      InsertStackedDiverges(c.ne, item, pos, fuel, p);
    } else if Contains(NW(b), p) {
      InsertStackedDiverges(c.nw, item, pos, fuel, p);
    } else if Contains(SE(b), p) {
      InsertStackedDiverges(c.se, item, pos, fuel, p);
    } else {
      InsertStackedDiverges(c.sw, item, pos, fuel, p);
    }
  }

  lemma {:induction false} InsertAllStackedDiverges<T>(t: QuadTree<T>, xs: seq<T>, pos: T -> Vec2, fuel: nat, p: Vec2)
    requires !t.divided && |t.items| <= t.capacity + 1
    requires |t.items| + |xs| >= t.capacity + 2
    requires forall x <- t.items :: pos(x) == p
    requires forall x <- xs :: pos(x) == p
    requires Contains(t.boundary, p)
    ensures InsertAll(t, xs, pos, fuel) == None
    decreases |xs|
  {
    if |t.items| == t.capacity + 1 {
      InsertStackedDiverges(t, xs[0], pos, fuel, p);
    } else {
      var t1 := t.(items := t.items + [xs[0]]);
      assert Insert(t, xs[0], pos, fuel) == Some(t1);
      InsertAllStackedDiverges(t1, xs[1..], pos, fuel, p);
    }
  }

  /** Over exact reals, building a tree from `capacity + 2` or more items that share an
      in-bounds position never finishes. */
  lemma StackedBuildDiverges<T>(xs: seq<T>, b: Rect, capacity: nat, pos: T -> Vec2, fuel: nat, p: Vec2)
    requires |xs| >= capacity + 2
    requires forall x <- xs :: pos(x) == p
    requires Contains(b, p)
    ensures Build(xs, b, capacity, pos, fuel) == None
  {
    InsertAllStackedDiverges(NewTree(b, capacity), xs, pos, fuel, p);
  }

  // ----- Building a whole index -----

  lemma {:induction false} InsertAllCorrect<T>(t: QuadTree<T>, xs: seq<T>, pos: T -> Vec2, fuel: nat)
    requires Valid(t, pos)
    requires InsertAll(t, xs, pos, fuel).Some?
    ensures Valid(InsertAll(t, xs, pos, fuel).value, pos)
    ensures multiset(Elements(InsertAll(t, xs, pos, fuel).value))
            == multiset(Elements(t)) + multiset(Filter(xs, Inside(t.boundary, pos)))
    decreases |xs|
  {
    if xs != [] {
      var t1 := Insert(t, xs[0], pos, fuel);
      assert t1.Some? && InsertAll(t, xs, pos, fuel) == InsertAll(t1.value, xs[1..], pos, fuel);
      InsertCorrect(t, xs[0], pos, fuel);
      InsertAllCorrect(t1.value, xs[1..], pos, fuel);
      FilterCons(xs, Inside(t.boundary, pos));
      var m0 := multiset(Elements(t));
      var m1 := multiset(Elements(t1.value));
      var m2 := multiset(Elements(InsertAll(t, xs, pos, fuel).value));
      AddedStep(m0, m1, m2, Added(t.boundary, xs[0], pos), multiset(Filter(xs[1..], Inside(t.boundary, pos))));
    }
  }

  lemma AddedStep<T>(m0: multiset<T>, m1: multiset<T>, m2: multiset<T>, a: multiset<T>, rest: multiset<T>)
    requires m1 == m0 + a && m2 == m1 + rest
    ensures m2 == m0 + (a + rest)
  {
  }

  /** Inserting one more item after a sequence is one more insertion into the result. */
  lemma {:induction false} InsertAllSnoc<T>(t: QuadTree<T>, xs: seq<T>, x: T, pos: T -> Vec2, fuel: nat)
    ensures InsertAll(t, xs + [x], pos, fuel)
            == match InsertAll(t, xs, pos, fuel)
               case None => None
               case Some(t1) => Insert(t1, x, pos, fuel)
    decreases |xs|
  {
    if xs == [] {
      assert xs + [x] == [x] && [x][1..] == [];
    } else {
      assert (xs + [x])[0] == xs[0] && (xs + [x])[1..] == xs[1..] + [x];
      var t1 := Insert(t, xs[0], pos, fuel);
      if t1.Some? {
        InsertAllSnoc(t1.value, xs[1..], x, pos, fuel);
      }
    }
  }

  /** A built index is valid and holds exactly the items that lie in its boundary. */
  lemma BuildElements<T>(xs: seq<T>, b: Rect, capacity: nat, pos: T -> Vec2, fuel: nat)
    requires Build(xs, b, capacity, pos, fuel).Some?
    ensures Valid(Build(xs, b, capacity, pos, fuel).value, pos)
    ensures multiset(Elements(Build(xs, b, capacity, pos, fuel).value)) == multiset(Filter(xs, Inside(b, pos)))
  {
    var t0: QuadTree<T> := NewTree(b, capacity);
    assert Valid(t0, pos);
    InsertAllCorrect(t0, xs, pos, fuel);
  }

  /** A built index answers every query with exactly the in-bounds items that lie in the
      range; querying the whole boundary counts every in-bounds item once. */
  lemma BuildQuery<T>(xs: seq<T>, b: Rect, capacity: nat, pos: T -> Vec2, fuel: nat, range: Rect)
    requires Build(xs, b, capacity, pos, fuel).Some?
    ensures multiset(Query(Build(xs, b, capacity, pos, fuel).value, range, pos))
            == multiset(Filter(Filter(xs, Inside(b, pos)), Inside(range, pos)))
    ensures |Query(Build(xs, b, capacity, pos, fuel).value, b, pos)| == |Filter(xs, Inside(b, pos))|
  {
    var t := Build(xs, b, capacity, pos, fuel).value;
    var t0: QuadTree<T> := NewTree(b, capacity);
    assert Valid(t0, pos);
    InsertAllCorrect(t0, xs, pos, fuel);
    assert multiset(Elements(t)) == multiset(Filter(xs, Inside(b, pos)));
    QueryExact(t, range, pos);
    QueryExact(t, b, pos);
    ElementsInBoundary(t, pos);
    FilterAll(Elements(t), Inside(b, pos));
    FilterSameMultiset(Elements(t), Filter(xs, Inside(b, pos)), Inside(range, pos));
    assert |multiset(Elements(t))| == |multiset(Filter(xs, Inside(b, pos)))|;
  }

  /** The answer of a query does not depend on the capacity the index was built with. */
  lemma QueryIndependentOfCapacity<T>(xs: seq<T>, b: Rect, cap1: nat, cap2: nat, pos: T -> Vec2, fuel1: nat, fuel2: nat, range: Rect)
    requires Build(xs, b, cap1, pos, fuel1).Some?
    requires Build(xs, b, cap2, pos, fuel2).Some?
    ensures multiset(Query(Build(xs, b, cap1, pos, fuel1).value, range, pos))
            == multiset(Query(Build(xs, b, cap2, pos, fuel2).value, range, pos))
  {
    BuildQuery(xs, b, cap1, pos, fuel1, range);
    BuildQuery(xs, b, cap2, pos, fuel2, range);
  }
}
