/** Order-preserving selection from a sequence, the shape of every `.filter(..).collect()`
    and every "push if" scan in the source: the range scan of a quadtree leaf, the circular
    sensing filter, the predator's prey filter and the tick's uneaten-food test. */
module Filtering {

  /** The items of `s` that satisfy `keep`, in their original order. */
  function Filter<T(==)>(s: seq<T>, keep: T -> bool): (f: seq<T>)
    ensures multiset(f) <= multiset(s)
    ensures forall x <- f :: keep(x)
    decreases |s|
  {
    if s == [] then []
    else
      var rest := Filter(s[..|s| - 1], keep);
      assert s == s[..|s| - 1] + [s[|s| - 1]];
      if keep(s[|s| - 1]) then rest + [s[|s| - 1]] else rest
  }

  lemma FilterSingle<T>(x: T, keep: T -> bool)
    ensures Filter([x], keep) == if keep(x) then [x] else []
  {
    assert [x][..0] == [];
  }

  /** The number of copies of `x` a filter keeps: all of them or none. */
  lemma {:induction false} FilterCount<T>(s: seq<T>, keep: T -> bool, x: T)
    ensures multiset(Filter(s, keep))[x] == if keep(x) then multiset(s)[x] else 0
    decreases |s|
  {
    if s != [] {
      var s', last := s[..|s| - 1], s[|s| - 1];
      FilterCount(s', keep, x);
      assert s == s' + [last];
      assert multiset(s) == multiset(s') + multiset{last};
      if keep(last) {
        assert Filter(s, keep) == Filter(s', keep) + [last];
      } else {
        assert Filter(s, keep) == Filter(s', keep);
      }
    }
  }

  lemma {:induction false} FilterConcat<T>(a: seq<T>, b: seq<T>, keep: T -> bool)
    ensures Filter(a + b, keep) == Filter(a, keep) + Filter(b, keep)
    decreases |b|
  {
    if b == [] {
      assert a + b == a;
    } else {
      var b', last := b[..|b| - 1], b[|b| - 1];
      var ab := a + b;
      assert ab[..|ab| - 1] == a + b' && ab[|ab| - 1] == last;
      FilterConcat(a, b', keep);
      if keep(last) {
        assert Filter(ab, keep) == Filter(a + b', keep) + [last];
        assert Filter(b, keep) == Filter(b', keep) + [last];
      } else {
        assert Filter(ab, keep) == Filter(a + b', keep);
        assert Filter(b, keep) == Filter(b', keep);
      }
    }
  }

  lemma FilterCons<T>(xs: seq<T>, keep: T -> bool)
    requires xs != []
    ensures multiset(Filter(xs, keep))
            == (if keep(xs[0]) then multiset{xs[0]} else multiset{}) + multiset(Filter(xs[1..], keep))
  {
    assert xs == [xs[0]] + xs[1..];
    FilterConcat([xs[0]], xs[1..], keep);
    assert Filter([xs[0]], keep) == if keep(xs[0]) then [xs[0]] else [];
  }

  /** The filter that keeps everything. */
  function KeepAll<T>(): T -> bool {
    x => true
  }

  /** Filtering items that all pass keeps them all. */
  lemma {:induction false} FilterAllIndexed<T>(s: seq<T>, keep: T -> bool)
    requires forall i | 0 <= i < |s| :: keep(s[i])
    ensures Filter(s, keep) == s
    decreases |s|
  {
    if s != [] {
      var init := s[..|s| - 1];
      forall i | 0 <= i < |init|
        ensures keep(init[i])
      {
        assert init[i] == s[i];
      }
      FilterAllIndexed(init, keep);
      assert s == init + [s[|s| - 1]];
    }
  }

  /** `FilterAllIndexed`, with the premise stated by membership. */
  lemma FilterAll<T>(s: seq<T>, keep: T -> bool)
    requires forall x <- s :: keep(x)
    ensures Filter(s, keep) == s
  {
    FilterAllIndexed(s, keep);
  }

  /** The filter that keeps everything is the identity. */
  lemma FilterKeepAll<T>(s: seq<T>)
    ensures Filter(s, KeepAll()) == s
  {
    FilterAll(s, KeepAll());
  }

  /** Filtering depends only on the multiset filtered. */
  lemma FilterSameMultiset<T>(s: seq<T>, u: seq<T>, keep: T -> bool)
    requires multiset(s) == multiset(u)
    ensures multiset(Filter(s, keep)) == multiset(Filter(u, keep))
  {
    forall x ensures multiset(Filter(s, keep))[x] == multiset(Filter(u, keep))[x] {
      FilterCount(s, keep, x);
      FilterCount(u, keep, x);
    }
  }

  /** An item survives the filter exactly when it is in the input and passes. */
  lemma FilterMember<T>(s: seq<T>, keep: T -> bool, x: T)
    ensures x in Filter(s, keep) <==> x in s && keep(x)
  {
    FilterCount(s, keep, x);
    assert x in Filter(s, keep) <==> x in multiset(Filter(s, keep));
    assert x in s <==> x in multiset(s);
  }
}
