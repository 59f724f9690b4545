/** The region quadtree of src/simulation.rs:320-457, as an immutable datatype.

    A node covers `boundary`. While undivided it keeps raw `items` and accepts a new one as
    long as it holds at most `capacity` of them, so it can hold `capacity + 1`. The next
    in-bounds insertion splits it into four half-size quadrants, pushes every held item down,
    clears `items`, sets `divided`, and then forwards the new item to all four children; each
    child keeps it only if its own boundary contains the item's position.

    Over exact reals the source's `insert` is not guaranteed to return: once `capacity + 2`
    items share one position, every split sends all of them into the same quadrant, which
    splits again without end. (In f32 the halved offsets eventually round away, no quadrant
    contains the position, and the stacked items are dropped instead.) The insertion functions here therefore take `fuel`, which bounds how deep
    the recursion may go, and return `None` when it runs out. `QuadTreeProofs` shows that
    this `None` is genuine divergence and not a depth cap: extra fuel never changes a `Some`
    result, and the stacked case is `None` for every amount of fuel. */
module QuadTrees {
  import opened Options
  import opened Geometry
  import opened Filtering

  datatype QuadTree<T> = QuadTree(
    boundary: Rect,
    capacity: nat,
    items: seq<T>,
    children: Option<Children<T>>,
    divided: bool)

  /** Quadrants in the layout of `QuadTreeChildren`. */
  datatype Children<T> = Children(nw: QuadTree<T>, ne: QuadTree<T>, sw: QuadTree<T>, se: QuadTree<T>)

  /** The test of `Rect::contains` applied to an item's position. */
  function Inside<T>(range: Rect, pos: T -> Vec2): T -> bool {
    x => Contains(range, pos(x))
  }

  /** Everything stored in the tree, in the order `Query` visits it. */
  function Elements<T(==)>(t: QuadTree<T>): seq<T>
    decreases t
  {
    t.items + match t.children
      case None => []
      case Some(c) => ChildElements(c)
  }

  function ChildElements<T(==)>(c: Children<T>): seq<T>
    decreases c
  {
    Elements(c.ne) + Elements(c.nw) + Elements(c.se) + Elements(c.sw)
  }

  /** The structural invariant of a node:
      - `divided` is set exactly when `children` is present;
      - a divided node keeps no items of its own;
      - an undivided node holds at most `capacity + 1` items;
      - every item lies in the node's boundary;
      - the children are the four quadrants of the boundary, with the same capacity, and
        satisfy the invariant themselves. */
  predicate Valid<T(==)>(t: QuadTree<T>, pos: T -> Vec2)
    decreases t
  {
    && (t.divided <==> t.children.Some?)
    && (t.divided ==> t.items == [])
    && (!t.divided ==> |t.items| <= t.capacity + 1)
    && (forall x | x in t.items :: Contains(t.boundary, pos(x)))
    && match t.children
       case None => true
       case Some(c) => ChildrenValid(c, t.boundary, t.capacity, pos)
  }

  /** The children sit on the quadrants of `b` and share its capacity. */
  predicate ChildrenShape<T(==)>(c: Children<T>, b: Rect, capacity: nat) {
    && c.nw.boundary == NW(b) && c.ne.boundary == NE(b)
    && c.sw.boundary == SW(b) && c.se.boundary == SE(b)
    && c.nw.capacity == capacity && c.ne.capacity == capacity
    && c.sw.capacity == capacity && c.se.capacity == capacity
  }

  predicate ChildrenValid<T(==)>(c: Children<T>, b: Rect, capacity: nat, pos: T -> Vec2)
    decreases c
  {
    && ChildrenShape(c, b, capacity)
    && Valid(c.nw, pos) && Valid(c.ne, pos) && Valid(c.sw, pos) && Valid(c.se, pos)
  }

  /** `QuadTree::new`: an empty undivided node. */
  function NewTree<T(==)>(boundary: Rect, capacity: nat): (t: QuadTree<T>)
    ensures Elements(t) == [] && !t.divided
    ensures t.boundary == boundary && t.capacity == capacity
  {
    QuadTree(boundary, capacity, [], None, false)
  }

  /** `QuadTreeChildren::new`: four empty nodes on the quadrants of `b`, half its width and
      height, which together contain exactly the points of `b`, each point once. */
  function NewChildren<T(==)>(b: Rect, capacity: nat): (c: Children<T>)
    ensures ChildrenShape(c, b, capacity)
    ensures ChildElements(c) == []
    ensures !c.nw.divided && !c.ne.divided && !c.sw.divided && !c.se.divided
    ensures forall q <- [c.nw, c.ne, c.sw, c.se] :: q.boundary.w == b.w / 2.0 && q.boundary.h == b.h / 2.0
    ensures forall p :: Contains(b, p) <==> QuadrantsContaining(b, p) == 1
  {
    var c := Children(NewTree(NW(b), capacity), NewTree(NE(b), capacity),
                      NewTree(SW(b), capacity), NewTree(SE(b), capacity));
    assert forall p :: Contains(b, p) <==> QuadrantsContaining(b, p) == 1 by {
      forall p ensures Contains(b, p) <==> QuadrantsContaining(b, p) == 1 {
        QuadrantsTile(b, p);
      }
    }
    c
  }

  /** `QuadTree::insert` (src/simulation.rs:399-416). */
  function Insert<T(==)>(t: QuadTree<T>, item: T, pos: T -> Vec2, fuel: nat): (r: Option<QuadTree<T>>)
    ensures r.Some? ==> r.value.boundary == t.boundary && r.value.capacity == t.capacity
    ensures !Contains(t.boundary, pos(item)) ==> r == Some(t)
    decreases fuel, 0, 0
  {
    if !Contains(t.boundary, pos(item)) then Some(t)
    else if t.capacity >= |t.items| && !t.divided then Some(t.(items := t.items + [item]))
    else if fuel == 0 then None
    else
      var t1 :- if t.divided then Some(t) else Subdivide(t, pos, fuel - 1);
      match t1.children
      case None => Some(t1)
      case Some(c) =>
        var c1 :- InsertIntoChildren(c, item, pos, fuel - 1);
        Some(t1.(children := Some(c1)))
  }

  /** `QuadTree::subdivide` (src/simulation.rs:418-433): fresh quadrants receive every held
      item, then the node's own items are cleared and it is marked divided. */
  function Subdivide<T(==)>(t: QuadTree<T>, pos: T -> Vec2, fuel: nat): (r: Option<QuadTree<T>>)
    ensures r.Some? ==> r.value.boundary == t.boundary && r.value.capacity == t.capacity
    ensures r.Some? ==> r.value.divided && r.value.items == [] && r.value.children.Some?
    decreases fuel, 3, 0
  {
    var c :- Redistribute(NewChildren(t.boundary, t.capacity), t.items, pos, fuel);
    Some(t.(children := Some(c), items := [], divided := true))
  }

  /** The loop of `subdivide`: each held item, in order, offered to all four children. */
  function Redistribute<T(==)>(c: Children<T>, xs: seq<T>, pos: T -> Vec2, fuel: nat): (r: Option<Children<T>>)
    decreases fuel, 2, |xs|
  {
    if xs == [] then Some(c)
    else
      var c1 :- InsertIntoChildren(c, xs[0], pos, fuel);
      Redistribute(c1, xs[1..], pos, fuel)
  }

  /** One item offered to the children in the source's order: ne, nw, se, sw. */
  function InsertIntoChildren<T(==)>(c: Children<T>, item: T, pos: T -> Vec2, fuel: nat): (r: Option<Children<T>>)
    decreases fuel, 1, 0
  {
    var ne :- Insert(c.ne, item, pos, fuel);
    var nw :- Insert(c.nw, item, pos, fuel);
    var se :- Insert(c.se, item, pos, fuel);
    var sw :- Insert(c.sw, item, pos, fuel);
    Some(Children(nw, ne, sw, se))
  }

  /** `QuadTree::query` (src/simulation.rs:435-457): prune when the boundary does not
      intersect `range`; otherwise concatenate the children's answers (ne, nw, se, sw) or
      scan the node's own items. */
  function Query<T(==)>(t: QuadTree<T>, range: Rect, pos: T -> Vec2): (r: seq<T>)
    ensures forall x <- r :: Contains(range, pos(x))
    ensures multiset(r) <= multiset(Elements(t))
    decreases t
  {
    if Intersect(t.boundary, range).None? then []
    else match t.children
      case Some(c) =>
        Query(c.ne, range, pos) + Query(c.nw, range, pos)
        + Query(c.se, range, pos) + Query(c.sw, range, pos)
      case None => Filter(t.items, Inside(range, pos))
  }

  /** Inserting a sequence of items one after another, as the tick loop does when it
      rebuilds an index from a collection. */
  function InsertAll<T(==)>(t: QuadTree<T>, xs: seq<T>, pos: T -> Vec2, fuel: nat): (r: Option<QuadTree<T>>)
    ensures r.Some? ==> r.value.boundary == t.boundary && r.value.capacity == t.capacity
    decreases |xs|
  {
    if xs == [] then Some(t)
    else
      var t1 :- Insert(t, xs[0], pos, fuel);
      InsertAll(t1, xs[1..], pos, fuel)
  }

  /** A tree built from scratch over `boundary` from `xs`. */
  function Build<T(==)>(xs: seq<T>, boundary: Rect, capacity: nat, pos: T -> Vec2, fuel: nat): Option<QuadTree<T>> {
    InsertAll(NewTree(boundary, capacity), xs, pos, fuel)
  }
}
