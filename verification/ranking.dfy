/** Ranking sensed items by distance and keeping the nearest few, as `Entity::step` and
    `Food::step` do with `sort_by` on distance followed by the slice `[0..=min(2, len-1)]`
    (src/simulation.rs:133-143, 201-209, 304-311).

    Items are ranked by a `key`; the callers pass the squared distance from the sensing
    entity. The source compares `distance` (a square root), which orders items the same way.
    `sort_by` is stable, and so is the insertion sort below (`SortByKeyStable`): items with
    equal keys keep their input order. Sortedness, permutation and stability together fix
    the output, so both produce the same order, and ties decide which targets are kept the
    same way. */
module Ranking {
  import opened Filtering

  /** The source keeps at most three targets per step. */
  const MaxTargets: nat := 3

  predicate SortedBy<T>(s: seq<T>, key: T -> real) {
    forall i, j | 0 <= i < j < |s| :: key(s[i]) <= key(s[j])
  }

  /** A lower bound on the keys of `tail` and on the key of `x` bounds every key of a
      sequence holding exactly those items. */
  lemma BoundBelow<T>(rest: seq<T>, tail: seq<T>, x: T, key: T -> real, lo: real)
    requires multiset(rest) == multiset(tail) + multiset{x}
    requires lo <= key(x)
    requires forall j | 0 <= j < |tail| :: lo <= key(tail[j])
    ensures forall j | 0 <= j < |rest| :: lo <= key(rest[j])
  {
    forall j | 0 <= j < |rest|
      ensures lo <= key(rest[j])
    {
      var y := rest[j];
      assert y in multiset(rest);
      if y in multiset(tail) {
        var i :| 0 <= i < |tail| && tail[i] == y;
      }
    }
  }

  /** An item no greater than every item of a sorted sequence can go in front of it. */
  lemma SortedCons<T>(h: T, s: seq<T>, key: T -> real)
    requires SortedBy(s, key)
    requires forall j | 0 <= j < |s| :: key(h) <= key(s[j])
    ensures SortedBy([h] + s, key)
  {
  }

  /** Places `x` into a sorted sequence, before every item with the same key. */
  function InsertByKey<T(==)>(x: T, s: seq<T>, key: T -> real): (r: seq<T>)
    requires SortedBy(s, key)
    ensures SortedBy(r, key)
    ensures multiset(r) == multiset(s) + multiset{x}
    decreases |s|
  {
    if s == [] || key(x) <= key(s[0]) then
      [x] + s
    else
      var rest := InsertByKey(x, s[1..], key);
      assert s == [s[0]] + s[1..];
      BoundBelow(rest, s[1..], x, key, key(s[0]));
      SortedCons(s[0], rest, key);
      [s[0]] + rest
  }

  /** Stable sort by ascending key. */
  function SortByKey<T(==)>(s: seq<T>, key: T -> real): (r: seq<T>)
    ensures SortedBy(r, key)
    ensures multiset(r) == multiset(s)
    decreases |s|
  {
    if s == [] then []
    else
      assert s == [s[0]] + s[1..];
      InsertByKey(s[0], SortByKey(s[1..], key), key)
  }

  /** Selects the items whose key is `v`. */
  function HasKey<T>(key: T -> real, v: real): T -> bool {
    x => key(x) == v
  }

  /** Inserting `x` leaves the items of every key in the same relative order, with `x` in
      front of the items that share its key. */
  lemma {:induction false} InsertByKeyStable<T>(x: T, s: seq<T>, key: T -> real, v: real)
    requires SortedBy(s, key)
    ensures Filter(InsertByKey(x, s, key), HasKey(key, v))
            == (if key(x) == v then [x] else []) + Filter(s, HasKey(key, v))
    decreases |s|
  {
    var keep := HasKey(key, v);
    FilterSingle(x, keep);
    InsertByKeyUnfold(x, s, key);
    if s == [] || key(x) <= key(s[0]) {
      FilterConcat([x], s, keep);
    } else {
      var rest := InsertByKey(x, s[1..], key);
      InsertByKeyStable(x, s[1..], key, v);
      FilterSingle(s[0], keep);
      FilterPastHead(s[0], rest, s[1..], keep, if key(x) == v then [x] else []);
    }
  }

  /** One step of `InsertByKey`: `x` goes first, or the head stays first and `x` goes into
      the tail. */
  lemma InsertByKeyUnfold<T>(x: T, s: seq<T>, key: T -> real)
    requires SortedBy(s, key)
    ensures s == [] || key(x) <= key(s[0]) ==> InsertByKey(x, s, key) == [x] + s
    ensures s != [] && key(s[0]) < key(x) ==>
              SortedBy(s[1..], key) && s == [s[0]] + s[1..]
              && InsertByKey(x, s, key) == [s[0]] + InsertByKey(x, s[1..], key)
  {
    if s != [] {
      assert s == [s[0]] + s[1..];
    }
  }

  /** Putting `h` back in front: when `h` is filtered out or nothing is gained, the gained
      items `xs` stay in front. */
  lemma FilterPastHead<T>(h: T, rest: seq<T>, tail: seq<T>, keep: T -> bool, xs: seq<T>)
    requires Filter(rest, keep) == xs + Filter(tail, keep)
    requires !keep(h) || xs == []
    ensures Filter([h] + rest, keep) == xs + Filter([h] + tail, keep)
  {
    FilterConcat([h], rest, keep);
    FilterConcat([h], tail, keep);
    FilterSingle(h, keep);
    var ft := Filter(tail, keep);
    if keep(h) {
      assert Filter(rest, keep) == ft;
      assert Filter([h] + rest, keep) == [h] + ft;
      assert Filter([h] + tail, keep) == [h] + ft;
    } else {
      assert Filter([h] + rest, keep) == xs + ft;
      assert Filter([h] + tail, keep) == ft;
    }
  }

  /** The sort is stable: for every key, the items with that key come out in the order they
      went in. */
  lemma {:induction false} SortByKeyStable<T>(s: seq<T>, key: T -> real, v: real)
    ensures Filter(SortByKey(s, key), HasKey(key, v)) == Filter(s, HasKey(key, v))
    decreases |s|
  {
    if s != [] {
      var keep := HasKey(key, v);
      var sorted := SortByKey(s[1..], key);
      assert SortByKey(s, key) == InsertByKey(s[0], sorted, key);
      SortByKeyStable(s[1..], key, v);
      InsertByKeyStable(s[0], sorted, key, v);
      assert s == [s[0]] + s[1..];
      FilterConcat([s[0]], s[1..], keep);
      FilterSingle(s[0], keep);
    }
  }

  /** Up to `MaxTargets` items of `s` with the smallest keys, smallest first: no item left
      out has a smaller key than an item kept. */
  function Nearest<T(==)>(s: seq<T>, key: T -> real): (r: seq<T>)
    ensures |r| == if |s| < MaxTargets then |s| else MaxTargets
    ensures multiset(r) <= multiset(s)
    ensures SortedBy(r, key)
    ensures forall x, y | x in r && y in multiset(s) - multiset(r) :: key(x) <= key(y)
  {
    var sorted := SortByKey(s, key);
    var k := if |s| < MaxTargets then |s| else MaxTargets;
    PrefixOfSorted(s, sorted, k, key);
    sorted[..k]
  }

  lemma PrefixOfSorted<T>(s: seq<T>, sorted: seq<T>, k: nat, key: T -> real)
    requires SortedBy(sorted, key) && multiset(sorted) == multiset(s) && k <= |s|
    ensures k <= |sorted|
    ensures multiset(sorted[..k]) <= multiset(s)
    ensures SortedBy(sorted[..k], key)
    ensures forall x, y | x in sorted[..k] && y in multiset(s) - multiset(sorted[..k]) :: key(x) <= key(y)
  {
    assert |sorted| == |s| by {
      assert |multiset(sorted)| == |multiset(s)|;
    }
    PrefixSplit(sorted, k, key);
    PrefixSorted(sorted, k, key);
  }

  lemma PrefixSorted<T>(sorted: seq<T>, k: nat, key: T -> real)
    requires SortedBy(sorted, key) && k <= |sorted|
    ensures SortedBy(sorted[..k], key)
  {
    forall i, j | 0 <= i < j < k ensures key(sorted[..k][i]) <= key(sorted[..k][j]) {
      assert sorted[..k][i] == sorted[i] && sorted[..k][j] == sorted[j];
    }
  }

  /** In a sorted sequence every item of a prefix has a key no larger than every item
      outside it. */
  lemma PrefixSplit<T>(sorted: seq<T>, k: nat, key: T -> real)
    requires SortedBy(sorted, key) && k <= |sorted|
    ensures multiset(sorted) - multiset(sorted[..k]) == multiset(sorted[k..])
    ensures multiset(sorted[..k]) <= multiset(sorted)
    ensures forall x, y | x in sorted[..k] && y in multiset(sorted) - multiset(sorted[..k]) ::
              key(x) <= key(y)
  {
    assert sorted == sorted[..k] + sorted[k..];
    assert multiset(sorted) == multiset(sorted[..k]) + multiset(sorted[k..]);
    assert multiset(sorted[..k]) <= multiset(sorted);
    forall x, y | x in sorted[..k] && y in multiset(sorted) - multiset(sorted[..k])
      ensures key(x) <= key(y)
    {
      assert y in sorted[k..];
      var i :| 0 <= i < k && sorted[i] == x;
      var j :| k <= j < |sorted| && sorted[j] == y;
    }
  }
}
