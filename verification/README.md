# points: quadtree and collision step, modelled in Dafny

`points` is a small particle simulation built on Bevy. Every frame Bevy calls
its systems, with no order declared among them (`src/main.rs:190-193`):
- `point_movement_system` moves every point by its velocity and wraps it
  around the window's edges;
- `point_collision_system` builds a fresh point quadtree over the window,
  asks the tree for the neighbours of every point within radius 2.5, and
  exchanges and negates the velocities of each colliding pair;
- `window_moved_system` shifts every point when the window moves, without
  wrapping, and `point_spawn_system` adds a point at the cursor while the left mouse
  button is pressed.

This project models three parts of it:
- the point quadtree (`src/quadtree.rs`): construction, capacity-triggered
  subdivision, first-match insertion into the four quadrants, and circle
  queries with rectangle pruning;
- the collision step of `point_collision_system` (`src/main.rs`);
- the wrap-around rule of `point_movement_system` (`src/main.rs`).

Modules:

| module | file | contents |
|---|---|---|
| `Outcomes` | outcomes.dfy | `Option`, `Fueled` (finished or out of fuel), `Placed` (the `bool` that `insert` returns, plus the updated node) |
| `Geometry` | geometry.dfy | `Vec2`, `Rect`, the inclusive bounds test, the four quadrants |
| `Shapes` | shapes.dfy | the `Queryable` circle and its rectangle and point tests |
| `Quadtree` | quadtree.dfy | the tree, its invariant `Valid`, its contents as a multiset, and `New`, `Insert`, `InsertChildren`, `Subdivide`, `Query` |
| `QuadtreeFacts` | quadtree_facts.dfy | subdivision, divergence, fuel and query lemmas |
| `Collision` | collision.dfy | building the tree, neighbour pairing, velocity exchange |
| `Movement` | movement.dfy | the wrap-around position update |
| `Scenarios` | scenarios.dfy | concrete scenarios, proved on the model |

## How the model reads the source

- A tree node keeps the Rust struct's shape: a region, a capacity
  `maxPoints`, an optional point list and an optional block of children.
  `Quadtree.Valid` says that exactly one of the two is present. It also says
  that a leaf never holds more than `maxPoints` entries, that every stored
  entry lies inside its node's region, and that the children are the four
  half-size quadrants.
- `Contents(t)` is the multiset of `(position, item)` entries stored in the
  tree. Insertion, subdivision and query are specified against it.
- The source's `insert` can recurse forever. This happens when the capacity
  is 0, or when more than `maxPoints` entries sit at one position. Every
  subdivision therefore consumes one unit of a `fuel` budget, and `OutOfFuel`
  stands for "the source never returns". The retry after a subdivision is
  its own function, `Quadtree.SubdivideAndRetry`.
  `QuadtreeFacts.InsertFuelIrrelevant` proves that fuel never changes a
  finished answer, and `Collision.CollisionPairsFuelIrrelevant` lifts this to
  the whole pairing.
- Entity sets and maps from the ECS are sequences and maps over a generic
  entity type `E`. The iteration order of a Bevy query, a `HashSet` or a
  `HashMap` is an explicit sequence parameter. The neighbour-recording loop
  `Collision.RecordLoop` equals the set-based `Collision.RecordNeighbours`
  for every enumeration of the neighbour set, so its result does not depend
  on that order.
- The tree-based pairing is proved equal to a brute-force reference that
  checks every entity against every other (`Collision.CollectIsReference`).

Two consequences of the code's subdivision rule:
- With capacity 4 over `(0,0,100,100)`, inserting `(1,1)`, `(2,1)`, `(3,1)`,
  `(4,1)` and then `(5,1)` makes five nodes subdivide: the root and the
  north-west quadrants of side 50, 25, 12.5 and 6.25. Down to side 12.5 all
  five points fall first in the north-west quadrant. Only in the quadrant of
  side 6.25 do `(4,1)` and then `(5,1)` go to the north-east child, away from
  `(1,1)`. The fifth insertion therefore finishes exactly when the budget
  allows five subdivisions
  (`Scenarios.FifthPointNeedsFiveSubdivisions`). In general, a full leaf
  whose entries all share the new point's first quadrant descends into that
  quadrant (`QuadtreeFacts.InsertClusteredDescends`). One with an entry
  outside that quadrant finishes after one subdivision
  (`QuadtreeFacts.OverflowWithOutlierFinishes`).
- `QuadTree::new` accepts capacity 0. Every later in-bounds insertion then
  recurses forever (`QuadtreeFacts.ZeroCapacityDiverges`).

## Model

| member | source | states |
|---|---|---|
| Geometry.Contains | src/quadtree.rs:81-84 | definition: x in [x, x + width] and y in [y, y + height], all four edges included |
| Geometry.CornersIncluded | src/quadtree.rs:81-84 | because all four edges are included, a region of non-negative extent contains its four corners, and a region of negative extent contains no point |
| Geometry.NorthWest | src/quadtree.rs:54 | the `northwest` child's region shares the parent's corner (x, y) and has its opposite corner at the parent's centre |
| Geometry.NorthEast | src/quadtree.rs:55 | the `northeast` child's region shares the parent's corner (x + width, y) and has its opposite corner at the parent's centre |
| Geometry.SouthWest | src/quadtree.rs:56 | the `southwest` child's region shares the parent's corner (x, y + height) and has its opposite corner at the parent's centre |
| Geometry.SouthEast | src/quadtree.rs:57-63 | the `southeast` child's region shares the parent's corner (x + width, y + height) and has its opposite corner at the parent's centre |
| Geometry.Neg | src/main.rs:170-175 | `-v1.0` and `-tmp.0`: the negated velocity adds to the original to zero on both axes |
| Geometry.QuadrantsCover | src/quadtree.rs:53-63 | a point lies in a region exactly when it lies in one of the four quadrants `subdivide` creates, so re-inserting a leaf's entries into the children never drops one |
| Geometry.QuadrantsTile | src/quadtree.rs:50-63 | the quadrants have half the parent's extent and meet exactly at the midlines, with the two columns and the two rows spanning the parent |
| Shapes.Max | src/quadtree.rs:173-174 | `max`: the result is at least both arguments and is one of them |
| Shapes.Min | src/quadtree.rs:173-174 | `min`: the result is at most both arguments and is one of them |
| Shapes.Clamp | src/quadtree.rs:173-174 | `v.max(lo).min(hi)`: for lo <= hi the result lies in [lo, hi] and is v itself when v already does; for lo > hi (negative extent) it is hi |
| Shapes.IntersectsRectangle | src/quadtree.rs:171-180 | the rectangle test compares the squared distance from the centre to its clamp onto the region with `r * r`; a circle whose centre lies in the region always passes |
| Shapes.IntersectsPoint | src/quadtree.rs:182-187 | the point test is the rectangle test on the zero-size region at the point, in both directions |
| Shapes.PruneSound | src/quadtree.rs:171-187 | if some point of a region passes the circle's point test, the region passes the rectangle test, so pruning never hides a match |
| Shapes.RectangleTestExact | src/quadtree.rs:171-180 | for a region of non-negative extent, the rectangle test holds exactly when some point of the region passes the point test (both directions) |
| Quadtree.FirstMatchEffect | src/quadtree.rs:15-20 | trying the children in order keeps every child valid and its frame fixed, and adds the entry to the block exactly when some child's region contains it |
| Quadtree.ContentsInside | src/quadtree.rs:80-85 | every entry stored anywhere under a valid node lies inside that node's region |
| Quadtree.New | src/quadtree.rs:37-47 | a new tree is a valid empty leaf over the given region with the given capacity |
| Geometry.FirstQuadrant | src/quadtree.rs:15-20 | the quadrant chosen for a point of the region contains it and is one of the four quadrants, NE tried first, then NW, SE and SW |
| Quadtree.Insert | src/quadtree.rs:80-102 | the answer is `true` exactly when the position passes the inclusive bounds test; an accepted entry is added to the contents once, with the tree kept valid and its region and capacity unchanged; a refused position leaves the tree as it was; a finished insertion leaves an internal node exactly when the node was internal or was a full leaf containing the position, so an internal node never becomes a leaf again (`subdivide` sets `points` to `None` at line 77 and nothing sets it back) |
| Quadtree.InsertChildren | src/quadtree.rs:15-20 | the block accepts exactly when some child's region contains the position; only the first such child in NE, NW, SE, SW order receives the entry and the others are untouched |
| Quadtree.SubdivideAndRetry | src/quadtree.rs:86-90 | a full leaf that subdivides and retries answers `true` and, when the retry finishes, holds its old contents plus the new entry once, and is an internal node |
| Quadtree.EmptyQuadrants | src/quadtree.rs:53-64 | the four new children are valid, empty, occupy the four quadrants and share the parent's capacity |
| Quadtree.Subdivide | src/quadtree.rs:49-78 | a finished subdivision turns a leaf into a valid internal node with the same region, capacity and contents |
| Quadtree.Distribute | src/quadtree.rs:73-75 | handing a list of in-bounds entries to the children adds exactly those entries to them, keeping every child valid and its frame fixed |
| Quadtree.QueryLeaf | src/quadtree.rs:143-147 | the loop over a leaf adds to the result exactly the items whose position passes the point test |
| Quadtree.PrunedHoldsNoMatch | src/quadtree.rs:135 | a subtree that fails the rectangle test holds no entry that passes the point test |
| Quadtree.Query | src/quadtree.rs:134-150 | a query adds to the caller's set exactly the items of stored entries whose position passes the point test, for the whole subtree despite pruning |
| QuadtreeFacts.FirstIndex | src/quadtree.rs:15-20 | the index of the first child in NE, NW, SE, SW order containing the position is below 4 exactly when some child contains it, and no earlier child does |
| QuadtreeFacts.InsertOutside | src/quadtree.rs:99-101 | an out-of-bounds position is refused with the tree unchanged, whatever the fuel |
| QuadtreeFacts.InsertIntoLeafWithRoom | src/quadtree.rs:86-93 | a leaf below capacity appends the entry at the end of its list, whatever the fuel |
| QuadtreeFacts.InsertChildrenIntoLeaf | src/quadtree.rs:15-20 | when the first containing child is a leaf with room, the entry goes to the end of that leaf and the other children stay as they were |
| QuadtreeFacts.InsertChildrenDiverges | src/quadtree.rs:15-20 | if inserting into the first containing child never returns, neither does the block |
| QuadtreeFacts.DistributeToOneChild | src/quadtree.rs:73-75 | entries whose first containing child is the same leaf with room are appended to it in order, leaving the other children unchanged |
| QuadtreeFacts.DistributeIntoLeaves | src/quadtree.rs:73-75 | handing entries to leaf children with room for all of them always finishes |
| QuadtreeFacts.SubdivideFinishes | src/quadtree.rs:49-78 | subdividing a valid leaf always finishes, whatever the fuel, and keeps exactly its entries |
| QuadtreeFacts.SubdivideTiles | src/quadtree.rs:49-64 | after subdivision the children sit at offsets (0,0), (w/2,0), (0,h/2) and (w/2,h/2) with half the extent and the same capacity, and a point lies in the parent exactly when it lies in some child |
| QuadtreeFacts.ZeroCapacityDiverges | src/quadtree.rs:86-90 | with capacity 0 every in-bounds insertion subdivides forever |
| QuadtreeFacts.FirstQuadrantIsFirstChild | src/quadtree.rs:15-20 | in a valid block of children, the first child containing a point is the one over the point's first quadrant |
| QuadtreeFacts.InsertChildrenFollowsFirst | src/quadtree.rs:15-20 | inserting into the children finishes exactly when inserting into the first containing child does |
| QuadtreeFacts.SubdivideClustered | src/quadtree.rs:49-78 | subdividing a leaf whose entries all share the point's first quadrant puts all of them, in order, into that quadrant's child, a valid leaf |
| QuadtreeFacts.InsertClusteredDescends | src/quadtree.rs:86-90 | inserting into a full leaf whose entries all share the point's first quadrant finishes exactly when inserting into that quadrant, holding the same entries, finishes with one unit less fuel |
| QuadtreeFacts.SubdivideLeavesRoom | src/quadtree.rs:49-78 | if some entry of a full leaf lies outside the point's first quadrant, the subdivided node has room for the point in the child it goes to |
| QuadtreeFacts.RetryIntoRoomFinishes | src/quadtree.rs:86-90 | a full leaf whose subdivision leaves room in the child the new position goes to accepts the position |
| QuadtreeFacts.OverflowWithOutlierFinishes | src/quadtree.rs:86-90 | a full leaf with an entry outside the new point's first quadrant accepts the point after one subdivision |
| QuadtreeFacts.CoincidentOverflowDiverges | src/quadtree.rs:86-90 | a full leaf whose entries all share the position being inserted never finishes the insertion |
| QuadtreeFacts.InsertFuelMonotone | src/quadtree.rs:80-102 | one more unit of fuel does not change a finished insertion |
| QuadtreeFacts.RetryFuelMonotone | src/quadtree.rs:86-90 | one more unit of fuel does not change a finished subdivide-and-retry |
| QuadtreeFacts.InternalFuelMonotone | src/quadtree.rs:94-97 | one more unit of fuel does not change a finished insertion into an internal node |
| QuadtreeFacts.InsertChildrenFuelMonotone | src/quadtree.rs:15-20 | one more unit of fuel does not change a finished insertion into the children |
| QuadtreeFacts.SubdivideFuelMonotone | src/quadtree.rs:49-78 | one more unit of fuel does not change a finished subdivision |
| QuadtreeFacts.DistributeFuelMonotone | src/quadtree.rs:73-75 | one more unit of fuel does not change a finished redistribution |
| QuadtreeFacts.InsertFuelIrrelevant | src/quadtree.rs:80-102 | once an insertion finishes, every larger budget gives the same answer |
| QuadtreeFacts.QueryIdempotent | src/quadtree.rs:134-150 | a query only adds to the caller's set, and repeating it adds nothing more |
| QuadtreeFacts.QueryFindsInserted | src/quadtree.rs:134-150 | after an accepted insertion, every query whose point test passes at the inserted position reports the inserted item |
| Collision.StepTree | src/main.rs:131 | the per-step tree starts as a valid empty leaf over the window with capacity `Capacity`, which is 100 |
| Collision.Window | src/main.rs:128-131 | the tree's region has the window's size and is centred on the origin |
| Collision.InRegionMembers | src/main.rs:133-138 | the insertion loop stores an entry exactly when it pairs an entity with that entity's position and the position lies in the window |
| Collision.InsertEntities | src/main.rs:133-138 | the insertion loop keeps the tree valid and adds to it exactly the entries of entities inside the region; a tree that is internal stays internal |
| Collision.BuildTree | src/main.rs:131-138 | the per-step tree covers the window, has capacity 100 and holds exactly the entries of entities inside the window |
| Collision.Around | src/main.rs:149 | `Circle::new(translation.x, translation.y, 2.5)`: the circle is centred on the entity's position with radius `Radius`, which is 2.5 |
| Collision.AroundFindsCentre | src/main.rs:148-154 | the circle around a position passes the point test at that position, so an entity in the tree always finds itself, which the `point != &entity` guard then skips |
| Collision.QueryIsNearby | src/main.rs:148-151 | querying the built tree with a circle of radius 2.5 gives exactly the entities in the window within 2.5 of the centre |
| Collision.RecordNeighbours | src/main.rs:153-157 | an entity that is already a key adds nothing; otherwise each other neighbour becomes a key mapped to the entity, overwriting an earlier partner, and all other keys keep theirs |
| Collision.RecordLoop | src/main.rs:153-157 | the inner loop over an enumeration of the neighbour set gives the map `RecordNeighbours` gives for the set itself, so every enumeration order gives the same map |
| Collision.CollectCollisions | src/main.rs:145-160 | the outer loop only adds keys, and adds no self-pair to a map without one |
| Collision.CollectIsReference | src/main.rs:142-160 | pairing with tree queries gives the same collision map as the brute-force reference |
| Collision.ReferenceKeepsInvariants | src/main.rs:145-160 | the pairing loop never records an entity as its own partner, and every key lies in the window within 2.5 of its partner |
| Collision.CollisionPairs | src/main.rs:131-160 | a finished pairing equals the brute-force reference and has no self-pairs and only close pairs |
| Collision.InsertEntitiesFuelIrrelevant | src/main.rs:133-138 | once the insertion loop finishes, every larger budget gives the same tree |
| Collision.CollisionPairsFuelIrrelevant | src/main.rs:131-160 | once the pairing finishes, every larger budget gives the same collision map |
| Collision.InsertEntitiesWithinCapacity | src/main.rs:133-138 | inserting into a leaf with room for every entity finishes and leaves a leaf |
| Collision.CollisionPairsWithinCapacity | src/main.rs:131-138 | with at most 100 entities the pairing always finishes |
| Collision.ExchangePair | src/main.rs:165-175 | one pair's velocities are swapped and negated, and every other velocity is unchanged |
| Collision.ExchangeTwiceRestores | src/main.rs:165-175 | exchanging the same pair twice restores every velocity |
| Collision.ExchangeOppositeKeeps | src/main.rs:165-175 | a pair with opposite velocities keeps the velocities it had |
| Collision.ExchangeLoop | src/main.rs:162-176 | exchanging the pairs of the listed keys keeps the set of entities, and entities no listed pair involves keep their velocity |
| Collision.ExchangeLoopIsolated | src/main.rs:162-176 | when the keys are distinct, a listed pair sharing no entity with another pair ends with its velocities swapped and negated |
| Collision.ExchangeAll | src/main.rs:162-176 | for keys listing every recorded pair once, the exchange keeps the set of entities, entities in no recorded pair keep their velocity, and each isolated pair ends swapped and negated, whatever the order |
| Movement.Wrap | src/main.rs:78-84 | the coordinate ends within the half-extent; it is the moved value exactly when that is in range, and otherwise the opposite edge |
| Movement.Move | src/main.rs:76-93 | the moved position lies in the window, and equals the plain sum of position and velocity when that sum already does |
| Movement.MoveAll | src/main.rs:76-93 | after the movement loop each listed entity's position is its old position moved by its own velocity, lies in the window, and positions of entities not in the loop are unchanged |
| Movement.MovedEntitiesAreAllInserted | src/main.rs:80-92 | when the collision step sees the positions the movement step produced, over the same window (no other system moves a point or resizes the window in between), every entity's entry is among those it inserts into its tree |
| Scenarios.TwoEntitiesFormOnePair | src/main.rs:142-160 | two entities 1.0 apart give exactly one recorded pair, whatever the fuel |
| Scenarios.HeadOnPairKeepsVelocities | src/main.rs:162-176 | the head-on pair with velocities (1,0) and (-1,0) keeps both velocities |
| Scenarios.InsertsFillRoot | src/quadtree.rs:80-102 | with capacity 4 over (0,0,100,100), each of (1,1) … (4,1) is appended to the root leaf, whatever the fuel |
| Scenarios.LastLevelInsert | src/quadtree.rs:86-90 | in the quadrant of side 6.25 the full leaf accepts (5,1) exactly when at least one subdivision is allowed |
| Scenarios.LevelStep | src/quadtree.rs:86-90 | above side 6.25 the full leaf accepts (5,1) exactly when the north-west quadrant one level down accepts it with one unit less fuel |
| Scenarios.LevelInsert | src/quadtree.rs:86-90 | at nesting level n the full leaf accepts (5,1) exactly when n plus the fuel reaches 5 |
| Scenarios.FifthPointNeedsFiveSubdivisions | src/quadtree.rs:86-90 | after (1,1) … (4,1), inserting (5,1) finishes exactly when the fuel is at least 5 |

## Left out

- Floating point: coordinates are exact reals. `f32` rounding, NaN and
  infinities are not modelled.
- Non-termination: the source's unbounded recursion in `insert` is bounded
  by a fuel parameter. `OutOfFuel` represents the recursion that never ends;
  the resulting stack overflow is not modelled.
- The `unwrap` of the primary window (`src/main.rs:72`, `src/main.rs:128`)
  is abstracted away: the window's width and height are parameters. The
  `unwrap` calls on a missing `Velocity` component are excluded by requiring
  every paired entity to be a key of the velocity map. Neither is modelled
  as a panic.
- The `Queryable` trait is the single-variant datatype `Shape` with the
  `Circle` constructor. No other implementor exists in the program.
- `Circle::new` is the datatype constructor `Circle(x, y, r)`.
- `Vec::with_capacity` in `QuadTree::new` only reserves memory and is not modelled.
- The ECS (Bevy queries, components, commands), window and mouse input,
  `spawn_point`, `window_moved_system`, random velocities and the commented
  out drawing code are outside the modelled core.
- Positions are two-dimensional. The `Transform`'s z coordinate is never
  read or written by the modelled code.
- Collision.ExchangeAll: does not state the final velocity of an entity in
  several pairs, because that depends on the `HashMap` iteration order given
  as `keys`. Untouched entities and isolated pairs are stated exactly.
- System order: Bevy may schedule `window_moved_system` or `point_spawn_system`
  between movement and collision. The model does not fix an order, so
  `Movement.MovedEntitiesAreAllInserted` is stated for positions passed
  directly from the movement step to the collision step.
