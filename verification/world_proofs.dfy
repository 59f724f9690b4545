/** What one tick does to the two indexes, and what each agent sees while it steps. */
module WorldProofs {
  import opened Options
  import opened Geometry
  import opened Filtering
  import opened QuadTrees
  import opened QuadTreeProofs
  import opened Agents
  import opened AgentProofs
  import opened Passes
  import opened World

  /** The entities and the entity index after a tick are what the entity pass produced. */
  lemma TickEntityPass(k: Kinematics, s: Simulation, fuel: nat)
    requires s.pause || (s.boundary.w != 0.0 && s.boundary.h != 0.0)
    requires Tick(k, s, fuel).Some?
    ensures var ep := StepAndIndex(EntityStepper(k, s.foodQt, s.pause), KeepAll(), EntityPos,
                                   NewTree(s.boundary, s.capacity), s.entities, fuel);
            && ep.Some?
            && Tick(k, s, fuel).value.entities == ep.value.items
            && Tick(k, s, fuel).value.entityQt == ep.value.tree
  {
  }

  /** The food items and the food index after a tick are what the food pass produced. */
  lemma TickFoodPass(k: Kinematics, s: Simulation, fuel: nat)
    requires s.pause || (s.boundary.w != 0.0 && s.boundary.h != 0.0)
    requires Tick(k, s, fuel).Some?
    ensures var n := Tick(k, s, fuel).value;
            var fp := StepAndIndex(FoodStepper(n.entityQt, s.pause), NotEaten, FoodPos,
                                   NewTree(s.boundary, s.capacity), s.foods, fuel);
            && fp.Some?
            && n.foods == fp.value.items
            && n.foodQt == fp.value.tree
  {
  }

  /** The entity index is rebuilt from an empty tree: after the tick it is the index built
      from all new entities, in order. */
  lemma TickEntityIndex(k: Kinematics, s: Simulation, fuel: nat)
    requires s.pause || (s.boundary.w != 0.0 && s.boundary.h != 0.0)
    requires Tick(k, s, fuel).Some?
    ensures var n := Tick(k, s, fuel).value;
            Build(n.entities, s.boundary, s.capacity, EntityPos, fuel) == Some(n.entityQt)
  {
    var n := Tick(k, s, fuel).value;
    TickEntityPass(k, s, fuel);
    StepAndIndexTree(EntityStepper(k, s.foodQt, s.pause), KeepAll(), EntityPos, s.boundary, s.capacity, s.entities, fuel);
    FilterKeepAll(n.entities);
  }

  /** Entity `i` is stepped against the index of the entities before it at their new
      positions, and against the food index of the previous tick. */
  lemma TickSensingOrder(k: Kinematics, s: Simulation, fuel: nat, i: nat)
    requires s.pause || (s.boundary.w != 0.0 && s.boundary.h != 0.0)
    requires Tick(k, s, fuel).Some?
    requires i < |s.entities|
    ensures var n := Tick(k, s, fuel).value;
            && Build(n.entities[..i], s.boundary, s.capacity, EntityPos, fuel).Some?
            && n.entities[i] == if s.pause then s.entities[i]
                                else EntityStep(k, s.entities[i], Build(n.entities[..i], s.boundary, s.capacity, EntityPos, fuel).value, s.foodQt)
  {
    var n := Tick(k, s, fuel).value;
    TickEntityPass(k, s, fuel);
    StepAndIndexStepAt(EntityStepper(k, s.foodQt, s.pause), KeepAll(), EntityPos, s.boundary, s.capacity, s.entities, fuel, i);
    FilterKeepAll(n.entities[..i]);
  }

  /** The food index is rebuilt from an empty tree and holds the food items that are still
      uneaten after the tick. */
  lemma TickFoodIndex(k: Kinematics, s: Simulation, fuel: nat)
    requires s.pause || (s.boundary.w != 0.0 && s.boundary.h != 0.0)
    requires Tick(k, s, fuel).Some?
    ensures var n := Tick(k, s, fuel).value;
            Build(Filter(n.foods, NotEaten), s.boundary, s.capacity, FoodPos, fuel) == Some(n.foodQt)
  {
    var n := Tick(k, s, fuel).value;
    TickEntityPass(k, s, fuel);
    TickFoodPass(k, s, fuel);
    StepAndIndexTree(FoodStepper(n.entityQt, s.pause), NotEaten, FoodPos, s.boundary, s.capacity, s.foods, fuel);
  }

  /** Every food item is stepped against the complete new entity index. */
  lemma TickFoodStep(k: Kinematics, s: Simulation, fuel: nat, i: nat)
    requires s.pause || (s.boundary.w != 0.0 && s.boundary.h != 0.0)
    requires Tick(k, s, fuel).Some?
    requires i < |s.foods|
    ensures var n := Tick(k, s, fuel).value;
            n.foods[i] == if s.pause then s.foods[i] else FoodStep(s.foods[i], n.entityQt)
  {
    var n := Tick(k, s, fuel).value;
    TickEntityPass(k, s, fuel);
    TickFoodPass(k, s, fuel);
    StepAndIndexStepAt(FoodStepper(n.entityQt, s.pause), NotEaten, FoodPos, s.boundary, s.capacity, s.foods, fuel, i);
  }

  /** A paused tick leaves every entity and food item as it was. */
  lemma TickPaused(k: Kinematics, s: Simulation, fuel: nat)
    requires s.pause
    requires Tick(k, s, fuel).Some?
    ensures Tick(k, s, fuel).value.entities == s.entities
    ensures Tick(k, s, fuel).value.foods == s.foods
  {
    var n := Tick(k, s, fuel).value;
    forall i | 0 <= i < |s.entities| ensures n.entities[i] == s.entities[i] {
      TickSensingOrder(k, s, fuel, i);
    }
    forall i | 0 <= i < |s.foods| ensures n.foods[i] == s.foods[i] {
      TickFoodStep(k, s, fuel, i);
    }
  }

  /** A running tick wraps every entity into `[0, |w|) x [0, |h|)` and keeps its group and
      its food count. */
  lemma TickWrapsEntities(k: Kinematics, s: Simulation, fuel: nat)
    requires !s.pause && s.boundary.w != 0.0 && s.boundary.h != 0.0
    requires Tick(k, s, fuel).Some?
    ensures var n := Tick(k, s, fuel).value;
            forall i | 0 <= i < |s.entities| ::
              && InTorus(n.entities[i].pos, s.boundary)
              && n.entities[i].group == s.entities[i].group
              && n.entities[i].foodCollected == s.entities[i].foodCollected
  {
    var n := Tick(k, s, fuel).value;
    forall i | 0 <= i < |s.entities|
      ensures InTorus(n.entities[i].pos, s.boundary)
      ensures n.entities[i].group == s.entities[i].group
      ensures n.entities[i].foodCollected == s.entities[i].foodCollected
    {
      TickSensingOrder(k, s, fuel, i);
    }
  }

  /** A tick never moves a food item and never makes an eaten item uneaten. */
  lemma TickKeepsFood(k: Kinematics, s: Simulation, fuel: nat)
    requires s.pause || (s.boundary.w != 0.0 && s.boundary.h != 0.0)
    requires Tick(k, s, fuel).Some?
    ensures var n := Tick(k, s, fuel).value;
            forall i | 0 <= i < |s.foods| ::
              n.foods[i].pos == s.foods[i].pos && (s.foods[i].isEaten ==> n.foods[i].isEaten)
  {
    var n := Tick(k, s, fuel).value;
    forall i | 0 <= i < |s.foods| ensures n.foods[i].pos == s.foods[i].pos && (s.foods[i].isEaten ==> n.foods[i].isEaten) {
      TickFoodStep(k, s, fuel, i);
    }
  }

  /** Entity `i` senses exactly the in-bounds entities among those stepped before it. */
  lemma TickSensesEarlierOnly(k: Kinematics, s: Simulation, fuel: nat, i: nat)
    requires s.pause || (s.boundary.w != 0.0 && s.boundary.h != 0.0)
    requires Tick(k, s, fuel).Some?
    requires i <= |s.entities|
    ensures var n := Tick(k, s, fuel).value;
            var seen := Build(n.entities[..i], s.boundary, s.capacity, EntityPos, fuel);
            && seen.Some?
            && Valid(seen.value, EntityPos)
            && multiset(Elements(seen.value)) == multiset(Filter(n.entities[..i], Inside(s.boundary, EntityPos)))
  {
    var n := Tick(k, s, fuel).value;
    TickEntityPass(k, s, fuel);
    StepAndIndexPrefix(EntityStepper(k, s.foodQt, s.pause), KeepAll(), EntityPos, s.boundary, s.capacity, s.entities, fuel, i);
    FilterKeepAll(n.entities[..i]);
  }
  /** After a tick the entity index is valid and holds exactly the new entities that lie
      inside the world boundary. */
  lemma TickEntitiesExact(k: Kinematics, s: Simulation, fuel: nat)
    requires s.pause || (s.boundary.w != 0.0 && s.boundary.h != 0.0)
    requires Tick(k, s, fuel).Some?
    ensures var n := Tick(k, s, fuel).value;
            && Valid(n.entityQt, EntityPos)
            && multiset(Elements(n.entityQt)) == multiset(Filter(n.entities, Inside(s.boundary, EntityPos)))
  {
    var n := Tick(k, s, fuel).value;
    TickEntityPass(k, s, fuel);
    StepAndIndexElements(EntityStepper(k, s.foodQt, s.pause), KeepAll(), EntityPos, s.boundary, s.capacity, s.entities, fuel);
    FilterKeepAll(n.entities);
  }

  /** After a tick the food index is valid and holds exactly the uneaten food items that
      lie inside the world boundary. */
  lemma TickFoodsExact(k: Kinematics, s: Simulation, fuel: nat)
    requires s.pause || (s.boundary.w != 0.0 && s.boundary.h != 0.0)
    requires Tick(k, s, fuel).Some?
    ensures var n := Tick(k, s, fuel).value;
            && Valid(n.foodQt, FoodPos)
            && multiset(Elements(n.foodQt)) == multiset(Filter(Filter(n.foods, NotEaten), Inside(s.boundary, FoodPos)))
  {
    var n := Tick(k, s, fuel).value;
    TickEntityPass(k, s, fuel);
    TickFoodPass(k, s, fuel);
    StepAndIndexElements(FoodStepper(n.entityQt, s.pause), NotEaten, FoodPos, s.boundary, s.capacity, s.foods, fuel);
  }

  /** An entity is in the new entity index exactly when it is one of the new entities and
      lies inside the world boundary. */
  lemma TickEntityIndexMember(k: Kinematics, s: Simulation, fuel: nat, e: Entity)
    requires s.pause || (s.boundary.w != 0.0 && s.boundary.h != 0.0)
    requires Tick(k, s, fuel).Some?
    ensures var n := Tick(k, s, fuel).value;
            e in Elements(n.entityQt) <==> e in n.entities && Contains(s.boundary, e.pos)
  {
    TickEntityPass(k, s, fuel);
    StepAndIndexMember(EntityStepper(k, s.foodQt, s.pause), KeepAll(), EntityPos, s.boundary, s.capacity, s.entities, fuel, e);
  }
  /** During a running tick a food item becomes eaten exactly when some entity of the new
      entity index lies within `EntitySize + FoodSize` of it. */
  lemma TickFoodEatenByIndex(k: Kinematics, s: Simulation, fuel: nat, i: nat)
    requires !s.pause && s.boundary.w != 0.0 && s.boundary.h != 0.0
    requires Tick(k, s, fuel).Some?
    requires i < |s.foods|
    ensures var n := Tick(k, s, fuel).value;
            n.foods[i].isEaten <==>
              s.foods[i].isEaten
              || exists e <- Elements(n.entityQt) :: DistSq(s.foods[i].pos, e.pos) <= (EntitySize + FoodSize) * (EntitySize + FoodSize)
  {
    TickFoodStep(k, s, fuel, i);
    TickEntitiesExact(k, s, fuel);
    FoodEatenExactly(s.foods[i], Tick(k, s, fuel).value.entityQt);
  }

  /** Hence a food item becomes eaten exactly when some new entity inside the world boundary
      lies within `EntitySize + FoodSize` of it. */
  lemma TickFoodEaten(k: Kinematics, s: Simulation, fuel: nat, i: nat)
    requires !s.pause && s.boundary.w != 0.0 && s.boundary.h != 0.0
    requires Tick(k, s, fuel).Some?
    requires i < |s.foods|
    ensures var n := Tick(k, s, fuel).value;
            var f := s.foods[i];
            n.foods[i].isEaten <==>
              f.isEaten
              || exists e <- n.entities ::
                   Contains(s.boundary, e.pos) && DistSq(f.pos, e.pos) <= (EntitySize + FoodSize) * (EntitySize + FoodSize)
  {
    var n := Tick(k, s, fuel).value;
    var f := s.foods[i];
    var reach := (EntitySize + FoodSize) * (EntitySize + FoodSize);
    TickFoodEatenByIndex(k, s, fuel, i);
    if e :| e in Elements(n.entityQt) && DistSq(f.pos, e.pos) <= reach {
      TickEntityIndexMember(k, s, fuel, e);
    }
    if e :| e in n.entities && Contains(s.boundary, e.pos) && DistSq(f.pos, e.pos) <= reach {
      TickEntityIndexMember(k, s, fuel, e);
    }
  }

  /** With the boundary of `Simulation::new` (origin at zero, positive size) a running tick
      leaves every entity inside the world boundary. This holds over exact reals; in f32
      `rem_euclid` of a tiny negative coordinate can round up to the width itself. */
  lemma TickEntitiesInside(k: Kinematics, s: Simulation, fuel: nat)
    requires !s.pause
    requires s.boundary.x == 0.0 && s.boundary.y == 0.0 && s.boundary.w > 0.0 && s.boundary.h > 0.0
    requires Tick(k, s, fuel).Some?
    ensures var n := Tick(k, s, fuel).value;
            forall i | 0 <= i < |n.entities| :: Contains(s.boundary, n.entities[i].pos)
  {
    TickWrapsEntities(k, s, fuel);
  }

  /** Hence, over exact reals, the entity index then holds every entity. */
  lemma TickIndexesAllEntities(k: Kinematics, s: Simulation, fuel: nat)
    requires !s.pause
    requires s.boundary.x == 0.0 && s.boundary.y == 0.0 && s.boundary.w > 0.0 && s.boundary.h > 0.0
    requires Tick(k, s, fuel).Some?
    ensures var n := Tick(k, s, fuel).value;
            multiset(Elements(n.entityQt)) == multiset(n.entities)
  {
    var n := Tick(k, s, fuel).value;
    TickEntitiesExact(k, s, fuel);
    TickEntitiesInside(k, s, fuel);
    IndexHoldsAll(n.entityQt, n.entities, s.boundary, EntityPos);
  }

  lemma IndexHoldsAll<T>(t: QuadTree<T>, xs: seq<T>, b: Rect, pos: T -> Vec2)
    requires multiset(Elements(t)) == multiset(Filter(xs, Inside(b, pos)))
    requires forall i | 0 <= i < |xs| :: Contains(b, pos(xs[i]))
    ensures multiset(Elements(t)) == multiset(xs)
  {
    FilterAllIndexed(xs, Inside(b, pos));
  }
}
