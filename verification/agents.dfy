/** The agent rules of src/simulation.rs: what an entity senses, which targets it steers
    towards, where it ends up after moving (`Entity::step`, lines 104-261), and when a food
    item is eaten (`Food::step`, lines 288-317).

    The heading arithmetic (`atan2`, `steer`, `powf`, `cos`, `sin`) is f32 trigonometry and
    is not modelled: a `Kinematics` value supplies the heading change per target and the
    displacement for a heading. Everything around it is modelled: the square query, the
    circular filter, the predator's prey filter, the choice of the three nearest, and the
    toroidal wrap. */
module Agents {
  import opened Geometry
  import opened Filtering
  import opened QuadTrees
  import opened Ranking

  /** `ENTITY_DETECT_RANGE`, `ENTITY_SIZE` and `FOOD_SIZE`. */
  const DetectRange: real := 100.0
  const EntitySize: real := 5.0
  const FoodSize: real := 3.0

  datatype Group = Predator | Prey

  /** An entity; the source's `coop` and `share` fields are never read and are left out. */
  datatype Entity = Entity(pos: Vec2, direction: real, foodCollected: nat, group: Group)

  datatype Food = Food(pos: Vec2, isEaten: bool)

  function EntityPos(e: Entity): Vec2 {
    e.pos
  }

  function FoodPos(f: Food): Vec2 {
    f.pos
  }

  /** The square every sensing query uses: side `2 * DetectRange`, centred on `c`. */
  function SenseWindow(c: Vec2): Rect {
    Rect(c.x - DetectRange, c.y - DetectRange, 2.0 * DetectRange, 2.0 * DetectRange)
  }

  /** The circular filter applied to the query's answer. */
  predicate InRange(c: Vec2, p: Vec2) {
    DistSq(c, p) <= DetectRange * DetectRange
  }

  /** A point is sensed from `c` when the square query returns it and the circle keeps it. */
  predicate Sensed(c: Vec2, p: Vec2) {
    Contains(SenseWindow(c), p) && InRange(c, p)
  }

  function WithinRange<T>(c: Vec2, pos: T -> Vec2): T -> bool {
    x => InRange(c, pos(x))
  }

  function DistanceFrom<T>(c: Vec2, pos: T -> Vec2): T -> real {
    x => DistSq(c, pos(x))
  }

  /** The query-then-filter step shared by both branches of `Entity::step` and by
      `Food::step`. */
  function Sense<T(==)>(qt: QuadTree<T>, pos: T -> Vec2, c: Vec2): (r: seq<T>)
    ensures forall x <- r :: Sensed(c, pos(x))
    ensures multiset(r) <= multiset(Elements(qt))
  {
    var q := Query(qt, SenseWindow(c), pos);
    var r := Filter(q, WithinRange(c, pos));
    assert forall x <- r :: x in q && WithinRange(c, pos)(x) by {
      forall x <- r ensures x in q && WithinRange(c, pos)(x) {
        assert x in multiset(r);
      }
    }
    r
  }

  /** The predator's second filter: in range and of the prey group. */
  function PreyWithinRange(c: Vec2): Entity -> bool {
    (e: Entity) => InRange(c, e.pos) && e.group == Prey
  }

  /** The foods a prey steers towards: up to three sensed foods, nearest first. */
  function PreyTargets(c: Vec2, foodQt: QuadTree<Food>): seq<Food> {
    Nearest(Sense(foodQt, FoodPos, c), DistanceFrom(c, FoodPos))
  }

  /** The entities a predator steers towards: up to three sensed prey, nearest first. */
  function PredatorTargets(c: Vec2, entityQt: QuadTree<Entity>): seq<Entity> {
    Nearest(Filter(Sense(entityQt, EntityPos, c), PreyWithinRange(c)), DistanceFrom(c, EntityPos))
  }

  function Positions<T>(s: seq<T>, pos: T -> Vec2): (ps: seq<Vec2>)
    ensures |ps| == |s|
    ensures forall i | 0 <= i < |s| :: ps[i] == pos(s[i])
  {
    seq(|s|, i requires 0 <= i < |s| => pos(s[i]))
  }

  /** The unmodelled heading arithmetic.
      `turn(direction, self, target, firstX, foodCollected)` is the heading change one
      target contributes; it receives the first target's x coordinate separately because
      the source's bearing mixes the current target's y with the first target's x.
      `advance(direction)` is the displacement of one step at that heading. */
  datatype Kinematics = Kinematics(
    turn: (real, Vec2, Vec2, real, nat) -> real,
    advance: real -> Vec2)

  /** The heading after steering towards each target in turn. */
  function Heading(k: Kinematics, dir: real, self: Vec2, foodCollected: nat, targets: seq<Vec2>, firstX: real): real
    decreases |targets|
  {
    if targets == [] then dir
    else Heading(k, dir + k.turn(dir, self, targets[0], firstX, foodCollected),
                 self, foodCollected, targets[1..], firstX)
  }

  /** The positions an entity steers towards, by group. */
  function TargetPositions(e: Entity, entityQt: QuadTree<Entity>, foodQt: QuadTree<Food>): seq<Vec2> {
    match e.group
    case Prey => Positions(PreyTargets(e.pos, foodQt), FoodPos)
    case Predator => Positions(PredatorTargets(e.pos, entityQt), EntityPos)
  }

  /** The range of wrapped positions: `[0, |w|) x [0, |h|)` for the size of `b`. */
  predicate InTorus(p: Vec2, b: Rect) {
    0.0 <= p.x < Abs(b.w) && 0.0 <= p.y < Abs(b.h)
  }

  /** `rem_euclid` on both coordinates, by the width and height of `b`. */
  function Wrap(p: Vec2, b: Rect): (q: Vec2)
    requires b.w != 0.0 && b.h != 0.0
    ensures InTorus(q, b)
  {
    Vec2(RemEuclid(p.x, b.w), RemEuclid(p.y, b.h))
  }

  /** `Entity::step`: steer towards the targets, advance one step, wrap around the
      boundary of the entity index. A zero-width or zero-height boundary makes the source's
      `rem_euclid` produce NaN and is excluded. */
  function EntityStep(k: Kinematics, e: Entity, entityQt: QuadTree<Entity>, foodQt: QuadTree<Food>): (r: Entity)
    requires entityQt.boundary.w != 0.0 && entityQt.boundary.h != 0.0
    ensures InTorus(r.pos, entityQt.boundary)
    ensures r.group == e.group && r.foodCollected == e.foodCollected
  {
    var targets := TargetPositions(e, entityQt, foodQt);
    var dir := if targets == [] then e.direction
               else Heading(k, e.direction, e.pos, e.foodCollected, targets, targets[0].x);
    e.(pos := Wrap(Add(e.pos, k.advance(dir)), entityQt.boundary), direction := dir)
  }

  /** `Food::step`: eaten once the nearest sensed entity is within `EntitySize + FoodSize`. */
  function FoodStep(f: Food, entityQt: QuadTree<Entity>): (r: Food)
    ensures r.pos == f.pos
    ensures f.isEaten ==> r.isEaten
  {
    var close := SortByKey(Sense(entityQt, EntityPos, f.pos), DistanceFrom(f.pos, EntityPos));
    if |close| > 0 && DistSq(f.pos, close[0].pos) <= (EntitySize + FoodSize) * (EntitySize + FoodSize)
    then f.(isEaten := true)
    else f
  }
}
