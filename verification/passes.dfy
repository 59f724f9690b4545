/** The shape shared by the two loops of the tick: step each item of a collection in
    order, then insert the stepped item into an index that started empty, if it is to be
    kept. The step may look at the index built so far. */
module Passes {
  import opened Options
  import opened Geometry
  import opened Filtering
  import opened QuadTrees
  import opened QuadTreeProofs

  /** The stepped items of a pass and the index they were inserted into. */
  datatype Pass<T> = Pass(items: seq<T>, tree: QuadTree<T>)

  /** `step` may be applied to any item together with any index over `b`. */
  ghost predicate Steppable<T(!new)>(step: (T, QuadTree<T>) --> T, b: Rect) {
    forall x, t: QuadTree<T> | t.boundary == b :: step.requires(x, t)
  }

  /** Steps every item of `xs` against the index built so far, inserting the stepped items
      that `keep` accepts. */
  function StepAndIndex<T(==, !new)>(step: (T, QuadTree<T>) --> T, keep: T -> bool, pos: T -> Vec2,
                                     qt: QuadTree<T>, xs: seq<T>, fuel: nat): (r: Option<Pass<T>>)
    requires Steppable(step, qt.boundary)
    ensures r.Some? ==> |r.value.items| == |xs|
    ensures r.Some? ==> r.value.tree.boundary == qt.boundary && r.value.tree.capacity == qt.capacity
    decreases |xs|
  {
    if xs == [] then Some(Pass([], qt))
    else
      var x := step(xs[0], qt);
      var qt1 :- if keep(x) then Insert(qt, x, pos, fuel) else Some(qt);
      var rest :- StepAndIndex(step, keep, pos, qt1, xs[1..], fuel);
      Some(Pass([x] + rest.items, rest.tree))
  }

  lemma SnocShift<T>(a: seq<T>, x: T, b: seq<T>, i: nat)
    requires 1 <= i <= |b| + 1
    ensures a + ([x] + b) == (a + [x]) + b
    ensures a + ([x] + b)[..i] == (a + [x]) + b[..i - 1]
    ensures a + ([x] + b)[..0] == a
  {
    assert ([x] + b)[..i] == [x] + b[..i - 1];
  }

  lemma FilterSnoc<T>(s: seq<T>, x: T, keep: T -> bool)
    ensures Filter(s + [x], keep) == Filter(s, keep) + if keep(x) then [x] else []
  {
    FilterConcat(s, [x], keep);
    assert [x][..0] == [];
  }

  /** Building from one more item is one more insertion, if the item is kept. */
  lemma BuildSnoc<T>(prev: seq<T>, x: T, keep: T -> bool, b: Rect, capacity: nat, pos: T -> Vec2, fuel: nat)
    requires Build(Filter(prev, keep), b, capacity, pos, fuel).Some?
    ensures var qt := Build(Filter(prev, keep), b, capacity, pos, fuel).value;
            Build(Filter(prev + [x], keep), b, capacity, pos, fuel)
            == if keep(x) then Insert(qt, x, pos, fuel) else Some(qt)
  {
    FilterSnoc(prev, x, keep);
    if keep(x) {
      InsertAllSnoc(NewTree(b, capacity), Filter(prev, keep), x, pos, fuel);
    } else {
      assert Filter(prev, keep) + [] == Filter(prev, keep);
    }
  }

  /** Started on the index built from the kept items of `prev`, a pass ends with the index
      built from the kept items of `prev` and of all it stepped. */
  lemma {:induction false} StepAndIndexBuilds<T(!new)>(step: (T, QuadTree<T>) --> T, keep: T -> bool, pos: T -> Vec2,
                                                 b: Rect, capacity: nat, prev: seq<T>, xs: seq<T>, fuel: nat)
    requires Steppable(step, b)
    requires Build(Filter(prev, keep), b, capacity, pos, fuel).Some?
    requires StepAndIndex(step, keep, pos, Build(Filter(prev, keep), b, capacity, pos, fuel).value, xs, fuel).Some?
    ensures var r := StepAndIndex(step, keep, pos, Build(Filter(prev, keep), b, capacity, pos, fuel).value, xs, fuel).value;
            Build(Filter(prev + r.items, keep), b, capacity, pos, fuel) == Some(r.tree)
    decreases |xs|
  {
    var qt := Build(Filter(prev, keep), b, capacity, pos, fuel).value;
    var r := StepAndIndex(step, keep, pos, qt, xs, fuel).value;
    if xs == [] {
      assert prev + r.items == prev;
    } else {
      var x := step(xs[0], qt);
      var qt1 := (if keep(x) then Insert(qt, x, pos, fuel) else Some(qt)).value;
      BuildSnoc(prev, x, keep, b, capacity, pos, fuel);
      var rest := StepAndIndex(step, keep, pos, qt1, xs[1..], fuel).value;
      assert r.items == [x] + rest.items && r.tree == rest.tree;
      StepAndIndexBuilds(step, keep, pos, b, capacity, prev + [x], xs[1..], fuel);
      SnocShift(prev, x, rest.items, 1);
    }
  }

  /** A pass is incremental: its first `i` results, and the index they leave, are those of
      the pass over the first `i` items alone, and item `i` is stepped against that index. */
  lemma {:induction false} StepAndIndexPrefixRun<T(!new)>(step: (T, QuadTree<T>) --> T, keep: T -> bool, pos: T -> Vec2,
                                                    qt: QuadTree<T>, xs: seq<T>, fuel: nat, i: nat)
    requires Steppable(step, qt.boundary)
    requires StepAndIndex(step, keep, pos, qt, xs, fuel).Some?
    requires i < |xs|
    ensures var r := StepAndIndex(step, keep, pos, qt, xs, fuel).value;
            var p := StepAndIndex(step, keep, pos, qt, xs[..i], fuel);
            && p.Some?
            && p.value.items == r.items[..i]
            && r.items[i] == step(xs[i], p.value.tree)
    decreases i
  {
    var r := StepAndIndex(step, keep, pos, qt, xs, fuel).value;
    var x := step(xs[0], qt);
    var qt1 := (if keep(x) then Insert(qt, x, pos, fuel) else Some(qt)).value;
    var rest := StepAndIndex(step, keep, pos, qt1, xs[1..], fuel).value;
    assert r.items == [x] + rest.items;
    if i == 0 {
      assert xs[..0] == [];
    } else {
      StepAndIndexPrefixRun(step, keep, pos, qt1, xs[1..], fuel, i - 1);
      var pre := xs[..i];
      assert pre[0] == xs[0] && pre[1..] == xs[1..][..i - 1];
      assert r.items[..i] == [x] + rest.items[..i - 1];
      assert r.items[i] == rest.items[i - 1] && xs[i] == xs[1..][i - 1];
    }
  }

  lemma EmptyBuild<T>(keep: T -> bool, b: Rect, capacity: nat, pos: T -> Vec2, fuel: nat)
    ensures Build(Filter([], keep), b, capacity, pos, fuel) == Some(NewTree(b, capacity))
  {
    assert Filter([], keep) == [];
  }

  /** A pass started on an empty index ends with the index built from the kept items it
      stepped. */
  lemma StepAndIndexTree<T(!new)>(step: (T, QuadTree<T>) --> T, keep: T -> bool, pos: T -> Vec2,
                                  b: Rect, capacity: nat, xs: seq<T>, fuel: nat)
    requires Steppable(step, b)
    requires StepAndIndex(step, keep, pos, NewTree(b, capacity), xs, fuel).Some?
    ensures var r := StepAndIndex(step, keep, pos, NewTree(b, capacity), xs, fuel).value;
            Build(Filter(r.items, keep), b, capacity, pos, fuel) == Some(r.tree)
  {
    var r := StepAndIndex(step, keep, pos, NewTree(b, capacity), xs, fuel).value;
    var empty: seq<T> := [];
    EmptyBuild(keep, b, capacity, pos, fuel);
    StepAndIndexBuilds(step, keep, pos, b, capacity, empty, xs, fuel);
    assert empty + r.items == r.items;
  }

  /** Item `i` of a pass started on an empty tree is stepped against the index built from
      the kept items stepped before it. */
  lemma StepAndIndexStepAt<T(!new)>(step: (T, QuadTree<T>) --> T, keep: T -> bool, pos: T -> Vec2,
                                    b: Rect, capacity: nat, xs: seq<T>, fuel: nat, i: nat)
    requires Steppable(step, b)
    requires StepAndIndex(step, keep, pos, NewTree(b, capacity), xs, fuel).Some?
    requires i < |xs|
    ensures var r := StepAndIndex(step, keep, pos, NewTree(b, capacity), xs, fuel).value;
            && Build(Filter(r.items[..i], keep), b, capacity, pos, fuel).Some?
            && r.items[i] == step(xs[i], Build(Filter(r.items[..i], keep), b, capacity, pos, fuel).value)
  {
    StepAndIndexPrefixRun(step, keep, pos, NewTree(b, capacity), xs, fuel, i);
    StepAndIndexTree(step, keep, pos, b, capacity, xs[..i], fuel);
  }

  /** The index a pass started on an empty tree ends with is valid and holds exactly the
      kept items it stepped that lie inside `b`. */
  lemma StepAndIndexElements<T(!new)>(step: (T, QuadTree<T>) --> T, keep: T -> bool, pos: T -> Vec2,
                                      b: Rect, capacity: nat, xs: seq<T>, fuel: nat)
    requires Steppable(step, b)
    requires StepAndIndex(step, keep, pos, NewTree(b, capacity), xs, fuel).Some?
    ensures var r := StepAndIndex(step, keep, pos, NewTree(b, capacity), xs, fuel).value;
            && Valid(r.tree, pos)
            && multiset(Elements(r.tree)) == multiset(Filter(Filter(r.items, keep), Inside(b, pos)))
  {
    var r := StepAndIndex(step, keep, pos, NewTree(b, capacity), xs, fuel).value;
    StepAndIndexTree(step, keep, pos, b, capacity, xs, fuel);
    BuildElements(Filter(r.items, keep), b, capacity, pos, fuel);
  }

  /** An item is in the final index exactly when the pass produced it, it is kept, and it
      lies inside `b`. */
  lemma StepAndIndexMember<T(!new)>(step: (T, QuadTree<T>) --> T, keep: T -> bool, pos: T -> Vec2,
                                    b: Rect, capacity: nat, xs: seq<T>, fuel: nat, x: T)
    requires Steppable(step, b)
    requires StepAndIndex(step, keep, pos, NewTree(b, capacity), xs, fuel).Some?
    ensures var r := StepAndIndex(step, keep, pos, NewTree(b, capacity), xs, fuel).value;
            x in Elements(r.tree) <==> x in r.items && keep(x) && Contains(b, pos(x))
  {
    var r := StepAndIndex(step, keep, pos, NewTree(b, capacity), xs, fuel).value;
    var kept := Filter(r.items, keep);
    StepAndIndexElements(step, keep, pos, b, capacity, xs, fuel);
    FilterMember(r.items, keep, x);
    FilterMember(kept, Inside(b, pos), x);
    assert x in Elements(r.tree) <==> x in multiset(Elements(r.tree));
    assert x in Filter(kept, Inside(b, pos)) <==> x in multiset(Filter(kept, Inside(b, pos)));
  }

  /** The index built from the kept items among the first `i` a pass produced is valid and
      holds exactly those of them that lie inside `b`. */
  lemma StepAndIndexPrefix<T(!new)>(step: (T, QuadTree<T>) --> T, keep: T -> bool, pos: T -> Vec2,
                                    b: Rect, capacity: nat, xs: seq<T>, fuel: nat, i: nat)
    requires Steppable(step, b)
    requires StepAndIndex(step, keep, pos, NewTree(b, capacity), xs, fuel).Some?
    requires i <= |xs|
    ensures var r := StepAndIndex(step, keep, pos, NewTree(b, capacity), xs, fuel).value;
            var seen := Build(Filter(r.items[..i], keep), b, capacity, pos, fuel);
            && seen.Some?
            && Valid(seen.value, pos)
            && multiset(Elements(seen.value)) == multiset(Filter(Filter(r.items[..i], keep), Inside(b, pos)))
  {
    var r := StepAndIndex(step, keep, pos, NewTree(b, capacity), xs, fuel).value;
    if i < |xs| {
      StepAndIndexStepAt(step, keep, pos, b, capacity, xs, fuel, i);
    } else {
      StepAndIndexTree(step, keep, pos, b, capacity, xs, fuel);
      assert r.items[..i] == r.items;
    }
    BuildElements(Filter(r.items[..i], keep), b, capacity, pos, fuel);
  }
}
