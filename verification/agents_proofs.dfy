/** What the agent rules compute, stated against the contents of the indexes they query. */
module AgentProofs {
  import opened Geometry
  import opened Filtering
  import opened QuadTrees
  import opened QuadTreeProofs
  import opened Ranking
  import opened Agents

  /** Sensing returns every stored item whose position is sensed, with its multiplicity,
      and nothing else. */
  lemma SenseCount<T>(qt: QuadTree<T>, pos: T -> Vec2, c: Vec2, x: T)
    requires Valid(qt, pos)
    ensures multiset(Sense(qt, pos, c))[x]
            == if Sensed(c, pos(x)) then multiset(Elements(qt))[x] else 0
  {
    var q := Query(qt, SenseWindow(c), pos);
    QueryExact(qt, SenseWindow(c), pos);
    FilterCount(Elements(qt), Inside(SenseWindow(c), pos), x);
    FilterCount(q, WithinRange(c, pos), x);
    assert Inside(SenseWindow(c), pos)(x) == Contains(SenseWindow(c), pos(x));
    assert WithinRange(c, pos)(x) == InRange(c, pos(x));
  }

  lemma SenseMember<T>(qt: QuadTree<T>, pos: T -> Vec2, c: Vec2, x: T)
    requires Valid(qt, pos)
    ensures x in Sense(qt, pos, c) <==> x in Elements(qt) && Sensed(c, pos(x))
  {
    SenseCount(qt, pos, c, x);
    assert x in Sense(qt, pos, c) <==> x in multiset(Sense(qt, pos, c));
    assert x in Elements(qt) <==> x in multiset(Elements(qt));
  }

  lemma SquareBelow(d: real, s: real)
    requires s > 0.0 && d * d < s * s
    ensures -s < d < s
  {
    if d >= s {
      MulMono(s, d, s);
      MulMono(s, d, d);
      assert false;
    } else if d <= -s {
      MulMono(s, -d, s);
      MulMono(s, -d, -d);
      assert false;
    }
  }

  /** Every point strictly closer than `DetectRange` is sensed. */
  lemma SensedWhenClose(c: Vec2, p: Vec2)
    requires DistSq(c, p) < DetectRange * DetectRange
    ensures Sensed(c, p)
  {
    var dx, dy := p.x - c.x, p.y - c.y;
    assert DistSq(c, p) == dx * dx + dy * dy;
    SquareBelow(dx, DetectRange);
    SquareBelow(dy, DetectRange);
  }

  lemma NegSquare(d: real)
    ensures (-d) * (-d) == d * d
  {
  }

  lemma UpperBound(d: real, r: real)
    requires r > 0.0 && d * d <= r * r
    ensures d <= r
  {
    if d > r {
      MulStrict(r, d, r);
      MulStrict(r, d, d);
    }
  }

  lemma SquareBound(d: real, r: real)
    requires r > 0.0 && d * d <= r * r
    ensures -r <= d <= r
  {
    UpperBound(d, r);
    NegSquare(d);
    UpperBound(-d, r);
  }

  /** The square query is half-open: within the circle it misses exactly the points on
      its right and bottom edges, `DetectRange` to the right of or below the centre. */
  lemma SensedExactly(c: Vec2, p: Vec2)
    ensures Sensed(c, p) <==>
              InRange(c, p) && p.x != c.x + DetectRange && p.y != c.y + DetectRange
  {
    var a, b := c.x - p.x, c.y - p.y;
    var r := DetectRange;
    assert DistSq(c, p) == a * a + b * b;
    if InRange(c, p) {
      SquareNonneg(a);
      SquareNonneg(b);
      assert a * a <= r * r && b * b <= r * r;
      SquareBound(a, r);
      SquareBound(b, r);
    }
  }

  /** The edge is reachable: a neighbour exactly `DetectRange` to the right passes the
      circular filter but is never returned by the square query. */
  lemma RightEdgeNotSensed(c: Vec2)
    ensures InRange(c, Vec2(c.x + DetectRange, c.y))
    ensures !Sensed(c, Vec2(c.x + DetectRange, c.y))
  {
    var p := Vec2(c.x + DetectRange, c.y);
    assert c.x - p.x == -100.0 && c.y - p.y == 0.0;
    assert DistSq(c, p) == (-100.0) * (-100.0) + 0.0 * 0.0 == 10000.0;
  }

  /** Ranking what was sensed: the result comes from the sensed stored items, in ascending
      key order, and no sensed stored item left out ranks before one kept. */
  lemma NearestSensed<T>(qt: QuadTree<T>, pos: T -> Vec2, c: Vec2, keep: T -> bool, key: T -> real)
    requires Valid(qt, pos)
    ensures var s := Filter(Sense(qt, pos, c), keep);
            var t := Nearest(s, key);
            && |t| == (if |s| < MaxTargets then |s| else MaxTargets)
            && (forall x <- t :: keep(x) && x in Elements(qt) && Sensed(c, pos(x)))
            && SortedBy(t, key)
            && (forall x, y | x in t && y in Elements(qt) && Sensed(c, pos(y)) && keep(y) && y !in t ::
                  key(x) <= key(y))
  {
    var u := Sense(qt, pos, c);
    var s := Filter(u, keep);
    var t := Nearest(s, key);
    forall x <- t ensures keep(x) && x in Elements(qt) && Sensed(c, pos(x)) {
      assert x in multiset(t);
      assert x in s;
      assert x in multiset(s);
      assert x in u;
      SenseMember(qt, pos, c, x);
    }
    forall x, y | x in t && y in Elements(qt) && Sensed(c, pos(y)) && keep(y) && y !in t
      ensures key(x) <= key(y)
    {
      SenseMember(qt, pos, c, y);
      FilterCount(u, keep, y);
      assert y in multiset(s) - multiset(t);
    }
  }

  /** A prey steers towards up to three sensed foods of its food index: the nearest ones,
      nearest first. */
  lemma PreyTargetsNearest(c: Vec2, foodQt: QuadTree<Food>)
    requires Valid(foodQt, FoodPos)
    ensures var t := PreyTargets(c, foodQt);
            var n := |Sense(foodQt, FoodPos, c)|;
            && |t| == (if n < MaxTargets then n else MaxTargets)
            && (forall f <- t :: f in Elements(foodQt) && Sensed(c, f.pos))
            && SortedBy(t, DistanceFrom(c, FoodPos))
            && (forall f, g | f in t && g in Elements(foodQt) && Sensed(c, g.pos) && g !in t ::
                  DistanceFrom(c, FoodPos)(f) <= DistanceFrom(c, FoodPos)(g))
  {
    var u := Sense(foodQt, FoodPos, c);
    FilterAll(u, KeepAll());
    NearestSensed(foodQt, FoodPos, c, KeepAll(), DistanceFrom(c, FoodPos));
  }

  /** A predator steers only towards prey: up to three sensed prey of its entity index,
      nearest first; predators are never targets. */
  lemma PredatorTargetsNearest(c: Vec2, entityQt: QuadTree<Entity>)
    requires Valid(entityQt, EntityPos)
    ensures var t := PredatorTargets(c, entityQt);
            var n := |Filter(Sense(entityQt, EntityPos, c), PreyWithinRange(c))|;
            && |t| == (if n < MaxTargets then n else MaxTargets)
            && (forall e <- t :: e.group == Prey && e in Elements(entityQt) && Sensed(c, e.pos))
            && SortedBy(t, DistanceFrom(c, EntityPos))
            && (forall e, g | e in t && g in Elements(entityQt) && Sensed(c, g.pos) && g.group == Prey && g !in t ::
                  DistanceFrom(c, EntityPos)(e) <= DistanceFrom(c, EntityPos)(g))
  {
    NearestSensed(entityQt, EntityPos, c, PreyWithinRange(c), DistanceFrom(c, EntityPos));
  }

  /** A prey that senses no food keeps its heading. */
  lemma NoFoodKeepsHeading(k: Kinematics, e: Entity, entityQt: QuadTree<Entity>, foodQt: QuadTree<Food>)
    requires entityQt.boundary.w != 0.0 && entityQt.boundary.h != 0.0
    requires Valid(foodQt, FoodPos)
    requires e.group == Prey
    requires forall f <- Elements(foodQt) :: !Sensed(e.pos, f.pos)
    ensures EntityStep(k, e, entityQt, foodQt).direction == e.direction
  {
    var s := Sense(foodQt, FoodPos, e.pos);
    if s != [] {
      var f := s[0];
      SenseMember(foodQt, FoodPos, e.pos, f);
      assert false;
    }
  }

  /** A predator that senses no prey keeps its heading, however many predators it senses. */
  lemma NoPreyKeepsHeading(k: Kinematics, e: Entity, entityQt: QuadTree<Entity>, foodQt: QuadTree<Food>)
    requires entityQt.boundary.w != 0.0 && entityQt.boundary.h != 0.0
    requires Valid(entityQt, EntityPos)
    requires e.group == Predator
    requires forall x <- Elements(entityQt) :: Sensed(e.pos, x.pos) ==> x.group == Predator
    ensures EntityStep(k, e, entityQt, foodQt).direction == e.direction
  {
    var s := Sense(entityQt, EntityPos, e.pos);
    var p := Filter(s, PreyWithinRange(e.pos));
    if p != [] {
      var x := p[0];
      assert PreyWithinRange(e.pos)(x);
      assert x in multiset(p);
      assert x in s;
      SenseMember(entityQt, EntityPos, e.pos, x);
      assert false;
    }
  }

  /** Wrapping leaves a position already inside `[0, |w|) x [0, |h|)` where it is. */
  lemma WrapFixesInside(p: Vec2, b: Rect)
    requires b.w != 0.0 && b.h != 0.0
    requires InTorus(p, b)
    ensures Wrap(p, b) == p
  {
    RemEuclidIdentity(p.x, b.w);
    RemEuclidIdentity(p.y, b.h);
  }

  /** The world is a torus: moving a whole width sideways or a whole height up or down
      does not change the wrapped position. */
  lemma WrapPeriodic(p: Vec2, b: Rect)
    requires b.w != 0.0 && b.h != 0.0
    ensures Wrap(Vec2(p.x + Abs(b.w), p.y), b) == Wrap(p, b)
    ensures Wrap(Vec2(p.x - Abs(b.w), p.y), b) == Wrap(p, b)
    ensures Wrap(Vec2(p.x, p.y + Abs(b.h)), b) == Wrap(p, b)
    ensures Wrap(Vec2(p.x, p.y - Abs(b.h)), b) == Wrap(p, b)
  {
    RemEuclidShift(p.x, b.w);
    RemEuclidShift(p.y, b.h);
  }

  /** The head of a sorted sequence has the smallest key of all its items. */
  lemma SortedHeadIsLeast<T>(s: seq<T>, key: T -> real, y: T)
    requires y in s
    ensures |SortByKey(s, key)| > 0
    ensures SortByKey(s, key)[0] in s
    ensures key(SortByKey(s, key)[0]) <= key(y)
  {
    var sorted := SortByKey(s, key);
    assert y in multiset(sorted);
    var i :| 0 <= i < |sorted| && sorted[i] == y;
    assert sorted[0] in multiset(s);
    if i > 0 {
      assert key(sorted[0]) <= key(sorted[i]);
    }
  }

  /** An entity close enough to eat a food item is always sensed by it. */
  lemma EaterSensed(f: Food, entityQt: QuadTree<Entity>, e: Entity)
    requires Valid(entityQt, EntityPos)
    requires e in Elements(entityQt)
    requires DistSq(f.pos, e.pos) <= (EntitySize + FoodSize) * (EntitySize + FoodSize)
    ensures e in Sense(entityQt, EntityPos, f.pos)
  {
    SensedWhenClose(f.pos, e.pos);
    SenseMember(entityQt, EntityPos, f.pos, e);
  }

  /** The nearest sensed entity is within reach of `c` exactly when some stored entity is. */
  lemma NearestWithinReach(c: Vec2, entityQt: QuadTree<Entity>)
    requires Valid(entityQt, EntityPos)
    ensures var close := SortByKey(Sense(entityQt, EntityPos, c), DistanceFrom(c, EntityPos));
            (|close| > 0 && DistSq(c, close[0].pos) <= (EntitySize + FoodSize) * (EntitySize + FoodSize))
            <==> exists e <- Elements(entityQt) :: DistSq(c, e.pos) <= (EntitySize + FoodSize) * (EntitySize + FoodSize)
  {
    var reach := (EntitySize + FoodSize) * (EntitySize + FoodSize);
    var s := Sense(entityQt, EntityPos, c);
    var key := DistanceFrom(c, EntityPos);
    var close := SortByKey(s, key);
    if |close| > 0 && DistSq(c, close[0].pos) <= reach {
      assert close[0] in multiset(close);
      assert close[0] in multiset(s);
      SenseMember(entityQt, EntityPos, c, close[0]);
    }
    if e :| e in Elements(entityQt) && DistSq(c, e.pos) <= reach {
      EaterSensed(Food(c, false), entityQt, e);
      SortedHeadIsLeast(s, key, e);
      assert key(close[0]) <= key(e);
    }
  }

  /** `Food::step` marks a food item eaten exactly when it already was or some stored
      entity lies within `EntitySize + FoodSize` of it. */
  lemma FoodEatenExactly(f: Food, entityQt: QuadTree<Entity>)
    requires Valid(entityQt, EntityPos)
    ensures FoodStep(f, entityQt).isEaten <==>
              f.isEaten
              || exists e <- Elements(entityQt) :: DistSq(f.pos, e.pos) <= (EntitySize + FoodSize) * (EntitySize + FoodSize)
  {
    NearestWithinReach(f.pos, entityQt);
  }

}
