# ntrl-ctrl: the spatial index and the tick, in Dafny

ntrl-ctrl is a small predator/prey simulation. Every tick it rebuilds two region quadtrees:
one over the entities and one over the food items. Each entity queries them to find its
neighbours, steers towards up to three of the nearest, moves, and wraps around the edges of
the world. Food is eaten when an entity comes close enough. This project models the part of
`src/simulation.rs` that can be stated exactly:

- **the quadtree**: `QuadTree::{new, insert, subdivide, query}` and `QuadTreeChildren::new`. It is an
  immutable datatype over `real` rectangles, with its structural invariant (`Valid`) and its
  abstract meaning, the multiset of stored items (`Elements`);
- **the agent rules**: the sensing query and circular filter of `Entity::step`, the choice of the
  three nearest targets (the predator takes prey only), the toroidal wrap, and the eating test
  of `Food::step`;
- **the tick** of `Simulation::update` (lines 635-651): which index each entity and food item
  is stepped against, and what each rebuilt index holds afterwards.

Modules, in dependency order:

| file | module | contents |
|---|---|---|
| options.dfy | `Options` | the optional answer `Option`, usable with `:-` |
| geometry.dfy | `Geometry` | points, rectangles, the semantics of `Rect::contains` and `Rect::intersect`, quadrants, `rem_euclid` |
| filtering.dfy | `Filtering` | iterator `filter`, as a function on sequences |
| ranking.dfy | `Ranking` | the stable sort by distance and the "first three" slice |
| quadtree.dfy | `QuadTrees` | the quadtree and its operations |
| quadtree_proofs.dfy | `QuadTreeProofs` | correctness of insertion and query; divergence of stacked items |
| agents.dfy | `Agents` | entities, food, sensing, targets, `Entity::step`, `Food::step` |
| agents_proofs.dfy | `AgentProofs` | what sensing, ranking, wrapping and eating guarantee |
| passes.dfy | `Passes` | the shape both tick loops share: step each item against the index built so far, then insert it |
| world.dfy | `World` | the simulation state, `Simulation::new`, the tick |
| world_proofs.dfy | `WorldProofs` | what the tick guarantees |

Modelling decisions:

- **Non-termination.** Over exact reals, `insert` does not always return. Once `capacity + 2`
  items share one position, every split sends all of them into the same quadrant, and that
  quadrant splits again without end. The insertion functions therefore take `fuel` and
  return `None` when it runs out. Two lemmas make this `None` mean non-termination rather
  than a depth cap:
  - `InsertFuelMonotone`: extra fuel never changes a `Some` result;
  - `InsertStackedDiverges` and `StackedBuildDiverges`: the stacked case is `None` for every
    amount of fuel.

  All correctness statements are about `Some` results. In f32 the same input behaves
  differently (see "Left out").
- **Geometry.** `Rect::contains` and `Rect::intersect` belong to the rendering library and
  their code is not part of this model. They are assumed to behave as follows:
  - `contains` is half-open, `x <= p.x < x + w`;
  - `intersect` is `None` exactly when the far edge lies before the near edge, on either axis.

  Coordinates are `real`, so halving is exact and the four quadrants tile their parent.
- **Heading arithmetic.** `atan2`, `steer`, `powf`, `cos` and `sin` are not modelled. A
  `Kinematics` value supplies two things:
  - the heading change one target contributes, `turn`;
  - the displacement for a heading, `advance`.

  The order in which targets are applied is modelled. So is the source's use of the *first*
  target's x coordinate in every bearing (lines 176 and 242).
- **Sensing order.** Line 635 replaces `entity_qt` by an empty tree before the entity loop,
  and lines 638-640 insert each entity only after stepping it. Entity `i` therefore senses
  only entities `0..i-1`, at their new positions. See `TickSensingOrder` and
  `TickSensesEarlierOnly`.
- **Eaten food.** Lines 647-649 leave eaten items in `foods` and only skip them when building
  `food_qt`. See `TickFoodIndex`.
- **The half-open sensing window.** The square query is `[x - 100, x + 100)`. A neighbour exactly
  `DetectRange` to the right of or below an entity passes the circular filter but is never
  returned by the query (`SensedExactly`, `RightEdgeNotSensed`).

## Model

| member | source | states |
|---|---|---|
| Geometry.Intersect | src/simulation.rs:437 | a rectangle overlap exists whenever some point lies in both rectangles, and when it exists it contains exactly the points of both |
| Geometry.QuadrantsTile | src/simulation.rs:334-376 | a point lies in the parent rectangle iff it lies in exactly one of the four quadrants, and never in two |
| Geometry.FloorDiv | src/simulation.rs:259-260 | the whole number of moduli below `x`: `k * abs(m) <= x < (k + 1) * abs(m)` |
| Geometry.RemEuclid | src/simulation.rs:259-260 | `rem_euclid` lands in `[0, abs(m))` |
| Geometry.RemEuclidUnique | src/simulation.rs:259-260 | any value in `[0, abs(m))` that differs from `x` by whole moduli is the remainder |
| Geometry.RemEuclidPeriodic | src/simulation.rs:259-260 | shifting by any whole number of moduli does not change the remainder |
| Geometry.RemEuclidIdentity | src/simulation.rs:259-260 | a value already in `[0, abs(m))` is its own remainder |
| Filtering.Filter | src/simulation.rs:112-115 | the filtered sequence keeps only items that pass, and is a sub-multiset of the input |
| Filtering.FilterCount | src/simulation.rs:112-115 | each item occurs as often as in the input if it passes, and not at all otherwise |
| Filtering.FilterMember | src/simulation.rs:112-115 | an item is in the result iff it is in the input and passes |
| Filtering.FilterConcat | src/simulation.rs:112-115 | filtering distributes over concatenation, keeping order |
| Filtering.FilterAllIndexed | src/simulation.rs:112-115 | a filter that every item passes returns the input unchanged |
| Ranking.InsertByKey | src/simulation.rs:133-138 | inserting into a sorted sequence keeps it sorted and adds exactly the one item |
| Ranking.SortByKey | src/simulation.rs:133-138 | the sort is sorted by distance and is a permutation of its input |
| Ranking.InsertByKeyStable | src/simulation.rs:133-138 | inserting an item keeps the items of every distance in their order, with the new item ahead of those at its own distance |
| Ranking.SortByKeyStable | src/simulation.rs:133-138 | like the stable `sort_by`, the sort keeps items at equal distance in their input order |
| Ranking.Nearest | src/simulation.rs:142-143 | the slice holds `min(3, n)` items taken from the input, sorted, and no item left out is nearer than one kept |
| Ranking.PrefixOfSorted | src/simulation.rs:143 | a prefix of a sorted permutation is sorted, comes from the input, and bounds everything after it |
| QuadTrees.NewTree | src/simulation.rs:389-397 | a new node is empty, undivided, and keeps the given boundary and capacity |
| QuadTrees.NewChildren | src/simulation.rs:334-376 | the four children are empty and undivided, share the capacity, sit on the quadrants with half the width and height, and cover every point of the parent exactly once |
| QuadTrees.Insert | src/simulation.rs:399-416 | an item outside the boundary leaves the tree unchanged; boundary and capacity are kept |
| QuadTrees.Subdivide | src/simulation.rs:418-433 | after a split the node is divided, holds no items and has children |
| QuadTrees.Query | src/simulation.rs:435-457 | every returned item lies in the range, and the answer is a sub-multiset of the stored items |
| QuadTreeProofs.ElementsInBoundary | src/simulation.rs:399-400 | every item in a valid tree lies in the root boundary |
| QuadTreeProofs.PruneSound | src/simulation.rs:437 | a node whose boundary does not intersect the range stores nothing in the range |
| QuadTreeProofs.QueryExact | src/simulation.rs:435-457 | a query returns exactly the stored items whose position the range contains, in storage order |
| QuadTreeProofs.InsertCorrect | src/simulation.rs:399-416 | a returning insertion keeps the invariant, adds the item exactly when the boundary contains it, and never undoes a split |
| QuadTreeProofs.SubdivideCorrect | src/simulation.rs:418-433 | a split keeps the invariant and moves exactly the held items into the children |
| QuadTreeProofs.RedistributeCorrect | src/simulation.rs:423-429 | pushing the held items down stores each in-bounds item exactly once among the children |
| QuadTreeProofs.InsertIntoChildrenCorrect | src/simulation.rs:408-413 | forwarding an in-bounds item to all four children stores it exactly once |
| QuadTreeProofs.NewChildrenValid | src/simulation.rs:334-376 | fresh children satisfy the invariant for the parent's boundary and capacity |
| QuadTreeProofs.InsertFuelMonotone | src/simulation.rs:399-416 | once an insertion returns, more fuel gives the same tree |
| QuadTreeProofs.SubdivideFuelMonotone | src/simulation.rs:418-433 | once a split returns, more fuel gives the same tree |
| QuadTreeProofs.RedistributeFuelMonotone | src/simulation.rs:423-429 | once pushing down returns, more fuel gives the same children |
| QuadTreeProofs.InsertIntoChildrenFuelMonotone | src/simulation.rs:408-413 | once forwarding returns, more fuel gives the same children |
| QuadTreeProofs.RedistributeStacked | src/simulation.rs:423-429 | pushing down at most `capacity + 1` items at one point puts them all in the quadrant holding that point and nothing elsewhere, without splitting |
| QuadTreeProofs.SubdivideStacked | src/simulation.rs:418-433 | splitting a node whose at most `capacity + 1` items share one point puts them all in that point's quadrant, without further splits |
| QuadTreeProofs.InsertStackedDiverges | src/simulation.rs:401-413 | over exact reals, inserting a `capacity + 2`-th item at the point where a full node's items sit never returns |
| QuadTreeProofs.ChildrenStackedDiverge | src/simulation.rs:408-413 | over exact reals, forwarding such an item to children whose quadrant is full at that point never returns |
| QuadTreeProofs.InsertAllStackedDiverges | src/simulation.rs:399-416 | over exact reals, inserting items until `capacity + 2` share one in-bounds point never returns |
| QuadTreeProofs.StackedBuildDiverges | src/simulation.rs:389-416 | over exact reals, building an index from `capacity + 2` items at one in-bounds point never returns |
| QuadTreeProofs.InsertAllCorrect | src/simulation.rs:399-416 | inserting a sequence keeps the invariant and adds exactly its in-bounds items |
| QuadTreeProofs.InsertAllSnoc | src/simulation.rs:399-416 | inserting `xs + [x]` is inserting `xs`, then `x` |
| QuadTreeProofs.BuildElements | src/simulation.rs:389-416 | an index built from empty holds exactly the in-bounds items of the sequence |
| QuadTreeProofs.BuildQuery | src/simulation.rs:435-457 | querying a built index returns exactly the inserted items in both the root boundary and the range; querying the boundary counts every in-bounds insertion |
| QuadTreeProofs.QueryIndependentOfCapacity | src/simulation.rs:435-457 | the answer to a query does not depend on the capacity the index was built with |
| Passes.StepAndIndex | src/simulation.rs:636-651 | a pass keeps the number of items and the index's boundary and capacity |
| Passes.StepAndIndexTree | src/simulation.rs:636-651 | after a pass the index is the one built from the kept stepped items, in order |
| Passes.StepAndIndexStepAt | src/simulation.rs:636-651 | item `i` is stepped against the index built from the kept stepped items before it |
| Passes.StepAndIndexElements | src/simulation.rs:636-651 | after a pass the index is valid and holds exactly the kept, in-bounds stepped items |
| Passes.StepAndIndexMember | src/simulation.rs:636-651 | an item is in the final index iff it is a stepped item that is kept and in bounds |
| Passes.StepAndIndexPrefix | src/simulation.rs:636-651 | the index seen by item `i` is valid and holds exactly the kept, in-bounds items before it |
| Agents.Sense | src/simulation.rs:104-115 | everything sensed passes both the square query and the circular filter, and comes from the index |
| Agents.Wrap | src/simulation.rs:259-260 | a wrapped position lies in `[0, abs(w)) x [0, abs(h))` |
| Agents.EntityStep | src/simulation.rs:101-261 | the stepped entity lies in `[0, abs(w)) x [0, abs(h))` of its index's boundary and keeps its group and food count |
| Agents.FoodStep | src/simulation.rs:288-317 | food never moves and an eaten item stays eaten |
| AgentProofs.SenseCount | src/simulation.rs:104-115 | each stored item is sensed exactly as many times as it is stored if it is in the window and the circle, and otherwise not at all |
| AgentProofs.SenseMember | src/simulation.rs:119-131 | an item is sensed iff it is stored and both tests pass |
| AgentProofs.SensedWhenClose | src/simulation.rs:104-115 | a point strictly inside the circle is sensed |
| AgentProofs.SensedExactly | src/simulation.rs:104-115 | a point is sensed iff it is in the circle and not on the window's right or bottom edge |
| AgentProofs.RightEdgeNotSensed | src/simulation.rs:104-115 | the point `DetectRange` to the right is in the circle yet never sensed |
| AgentProofs.NearestSensed | src/simulation.rs:133-143 | the targets are `min(3, n)` sensed stored items that pass the filter, nearest first, and no sensed candidate left out is nearer than one kept |
| AgentProofs.PreyTargetsNearest | src/simulation.rs:119-143 | a prey targets up to three sensed foods, the nearest ones, nearest first |
| AgentProofs.PredatorTargetsNearest | src/simulation.rs:189-209 | a predator targets up to three sensed prey only, the nearest ones, nearest first |
| AgentProofs.NoFoodKeepsHeading | src/simulation.rs:142-186 | a prey that senses no food keeps its heading |
| AgentProofs.NoPreyKeepsHeading | src/simulation.rs:208-252 | a predator that senses no prey keeps its heading, whatever predators it senses |
| AgentProofs.WrapFixesInside | src/simulation.rs:259-260 | wrapping leaves a position already inside the torus where it is |
| AgentProofs.WrapPeriodic | src/simulation.rs:259-260 | moving a whole width or height does not change the wrapped position |
| AgentProofs.SortedHeadIsLeast | src/simulation.rs:304-309 | the head of the sorted sequence is at least as near as any item |
| AgentProofs.EaterSensed | src/simulation.rs:291-302 | an entity within eating distance of a food item is always sensed by it |
| AgentProofs.NearestWithinReach | src/simulation.rs:304-316 | the nearest sensed entity is within eating distance iff some stored entity is |
| AgentProofs.FoodEatenExactly | src/simulation.rs:288-317 | a food item is eaten after its step iff it was eaten already or some stored entity lies within `EntitySize + FoodSize` |
| World.NewSimulation | src/simulation.rs:508-541 | a new world has no entities or food, two empty indexes over `(0, 0, w, h)`, capacity 4, and is not paused |
| World.Tick | src/simulation.rs:635-651 | a tick keeps both collection sizes, the boundary, capacity and pause flag, and rebuilds both indexes over the boundary |
| WorldProofs.TickEntityIndex | src/simulation.rs:635-641 | the new entity index is the one built from the new entities, in order |
| WorldProofs.TickSensingOrder | src/simulation.rs:635-641 | entity `i` is stepped against the index of entities `0..i-1` at their new positions and the previous food index |
| WorldProofs.TickSensesEarlierOnly | src/simulation.rs:635-641 | the index entity `i` senses is valid and holds exactly the in-bounds new entities before it |
| WorldProofs.TickFoodIndex | src/simulation.rs:642-651 | the new food index is the one built from the uneaten food items, in order |
| WorldProofs.TickFoodStep | src/simulation.rs:643-646 | each food item is stepped against the complete new entity index |
| WorldProofs.TickPaused | src/simulation.rs:636-646 | a paused tick leaves every entity and food item unchanged |
| WorldProofs.TickWrapsEntities | src/simulation.rs:636-641 | a running tick wraps every entity into the torus and keeps its group and food count |
| WorldProofs.TickKeepsFood | src/simulation.rs:643-646 | a tick never moves food and never makes eaten food uneaten |
| WorldProofs.TickEntitiesExact | src/simulation.rs:635-641 | after a tick the entity index is valid and holds exactly the in-bounds new entities |
| WorldProofs.TickFoodsExact | src/simulation.rs:642-651 | after a tick the food index is valid and holds exactly the in-bounds uneaten food items |
| WorldProofs.TickEntityIndexMember | src/simulation.rs:635-641 | an entity is in the new index iff it is a new entity inside the boundary |
| WorldProofs.TickFoodEatenByIndex | src/simulation.rs:642-651 | a food item is eaten after a running tick iff it was eaten or some entity of the new index is within eating distance |
| WorldProofs.TickFoodEaten | src/simulation.rs:642-651 | a food item is eaten after a running tick iff it was eaten or some new entity inside the boundary is within eating distance |
| WorldProofs.TickEntitiesInside | src/simulation.rs:635-641 | over exact reals, with the boundary `Simulation::new` builds, a running tick leaves every entity inside it |
| WorldProofs.TickIndexesAllEntities | src/simulation.rs:635-641 | over exact reals, with that boundary the entity index holds every entity after a running tick |

## Left out

- Rendering: `draw`, `show`, `debug`, `clear`, `Simulation::draw`, `frame`, and the `draw_line` calls inside `Entity::step` (lines 149-173, 215-239). They are output only.
- Input handling and random spawning in `Simulation::update` (lines 574-633), `Entity::new`, `Food::new` and the `EntityType` sampler. They depend on mouse, keyboard and the random generator. `Tick` starts after them.
- The heading arithmetic (`atan2`, `steer`, `powf(1.5)`, `cos`, `sin`, lines 175-184, 241-250, 256-257, 667-673). It is f32 trigonometry and is passed in as `Kinematics`.
- f32 rounding. Coordinates are exact reals. The tiling of quadrants and the "stored exactly once" results hold over the reals, not necessarily over f32. Two consequences in f32 are not modelled:
  - stacked items: after enough splits `x + w / 2.0` (lines 350, 369) rounds back to `x`, no quadrant contains the point, and the source drops the items silently instead of splitting forever;
  - wrapping: `rem_euclid` of a tiny negative coordinate can round to the world width itself, which lies outside the half-open boundary, so such an entity is not indexed.
- `QuadTreeProofs.InsertStackedDiverges`: the divergence it states holds over exact reals only; in f32 the source drops the stacked items instead.
- `QuadTreeProofs.StackedBuildDiverges`: likewise over exact reals only.
- `WorldProofs.TickEntitiesInside`: holds over exact reals only; in f32 an entity wrapped onto the far edge is outside the boundary.
- `WorldProofs.TickIndexesAllEntities`: likewise over exact reals only; such an entity is missing from the index.
- Sorting by `distance` and `partial_cmp().unwrap()`. The model sorts by squared distance, which gives the same order for non-negative distances. The panic on a NaN distance is not modelled.
- A zero-width or zero-height world. `rem_euclid` by zero gives NaN, so `EntityStep` and a running `Tick` require a non-zero width and height.
- `QuadTrees.Insert`: non-termination is modelled as `None` under finite fuel, not as a call that never returns. `InsertFuelMonotone` and `InsertStackedDiverges` tie the two together.
- The `coop` and `share` fields of `Entity`, and the `is_running` and `debug` flags of `Simulation`. None of them is read by the modelled code.
- `src/main.rs`: window configuration and the frame loop.
