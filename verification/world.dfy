/** The simulation state and the tick of `Simulation::update` (src/simulation.rs:635-651),
    without the input handling and spawning that precede it.

    Both indexes are rebuilt from scratch on every tick, in this order:
    1. the entity index is replaced by an empty tree over the world boundary; each entity in
       turn is stepped against that index, which so far holds the entities before it at their
       new positions, and against the food index of the previous tick, and is then inserted;
    2. the food index is replaced by an empty tree; each food item in turn is stepped against
       the complete new entity index and is inserted only if it has not been eaten.
    While paused nothing is stepped, but both indexes are still rebuilt.

    Over exact reals insertion may diverge (see `QuadTrees`), so the passes and the tick take `fuel` and
    return `None` when an insertion has not returned. */
module World {
  import opened Options
  import opened Geometry
  import opened Filtering
  import opened QuadTrees
  import opened Agents
  import opened Passes

  /** The node capacity `Simulation::new` chooses. */
  const Capacity: nat := 4

  /** The simulation state; the window flags `is_running` and `debug` are left out. */
  datatype Simulation = Simulation(
    entityQt: QuadTree<Entity>,
    entities: seq<Entity>,
    foodQt: QuadTree<Food>,
    foods: seq<Food>,
    boundary: Rect,
    capacity: nat,
    pause: bool)

  /** `Simulation::new(w, h)`: no entities, no food, two empty indexes over `(0, 0, w, h)`. */
  function NewSimulation(w: real, h: real): (s: Simulation)
    ensures s.entities == [] && s.foods == []
    ensures Elements(s.entityQt) == [] && Elements(s.foodQt) == []
    ensures s.boundary == Rect(0.0, 0.0, w, h) && s.capacity == Capacity && !s.pause
    ensures s.entityQt.boundary == s.boundary && s.foodQt.boundary == s.boundary
  {
    var b := Rect(0.0, 0.0, w, h);
    Simulation(NewTree(b, Capacity), [], NewTree(b, Capacity), [], b, Capacity, false)
  }

  predicate NotEaten(f: Food) {
    !f.isEaten
  }

  /** The entity loop body: while running, `Entity::step` against the entity index built so
      far and the food index of the previous tick; while paused, nothing. */
  function EntityStepper(k: Kinematics, foodQt: QuadTree<Food>, pause: bool): (Entity, QuadTree<Entity>) --> Entity {
    (e: Entity, t: QuadTree<Entity>) requires pause || (t.boundary.w != 0.0 && t.boundary.h != 0.0) =>
      if pause then e else EntityStep(k, e, t, foodQt)
  }

  /** The food loop body: while running, `Food::step` against the finished entity index;
      while paused, nothing. The food index being built is not consulted. */
  function FoodStepper(entityQt: QuadTree<Entity>, pause: bool): (Food, QuadTree<Food>) -> Food {
    (f: Food, t: QuadTree<Food>) => if pause then f else FoodStep(f, entityQt)
  }

  /** One tick of `Simulation::update` after input handling. */
  function Tick(k: Kinematics, s: Simulation, fuel: nat): (r: Option<Simulation>)
    requires s.pause || (s.boundary.w != 0.0 && s.boundary.h != 0.0)
    ensures r.Some? ==> |r.value.entities| == |s.entities| && |r.value.foods| == |s.foods|
    ensures r.Some? ==> r.value.boundary == s.boundary && r.value.capacity == s.capacity && r.value.pause == s.pause
    ensures r.Some? ==> r.value.entityQt.boundary == s.boundary && r.value.foodQt.boundary == s.boundary
  {
    var ep :- StepAndIndex(EntityStepper(k, s.foodQt, s.pause), KeepAll(), EntityPos,
                           NewTree(s.boundary, s.capacity), s.entities, fuel);
    var fp :- StepAndIndex(FoodStepper(ep.tree, s.pause), NotEaten, FoodPos,
                           NewTree(s.boundary, s.capacity), s.foods, fuel);
    Some(s.(entityQt := ep.tree, entities := ep.items, foodQt := fp.tree, foods := fp.items))
  }
}
