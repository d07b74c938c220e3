/** The collision step of the simulation (`point_collision_system`), lifted
    out of the ECS as pure functions over an entity sequence (the query's
    iteration order) and position / velocity maps.

    Per step: build a fresh tree over the window, query a circle of radius
    2.5 around every entity, record `collisions[q] := entity` for every
    neighbour `q` other than the entity unless the entity is already a key,
    then exchange and negate the velocities of every recorded pair. */
module Collision {
  import opened Outcomes
  import opened Geometry
  import opened Shapes
  import opened Quadtree
  import opened QuadtreeFacts

  /** Leaf capacity of the per-step tree. */
  const Capacity: nat := 100

  /** Radius of the neighbour query around each entity. */
  const Radius: real := 2.5

  /** The tree's region: a window of the given size centred on the origin. */
  function Window(width: real, height: real): (r: Rect)
    ensures r.x + r.width / 2.0 == 0.0 && r.y + r.height / 2.0 == 0.0
    ensures r.width == width && r.height == height
  {
    Rect(-width / 2.0, -height / 2.0, width, height)
  }

  /** The circle of radius `Radius` queried around a position. */
  function Around(p: Vec2): (s: Shape)
    ensures Vec2(s.x, s.y) == p && s.r == Radius
  {
    Circle(p.x, p.y, Radius)
  }

  /** The centre passes the point test, so the query around an entity stored
      in the tree always reports that entity itself. */
  lemma AroundFindsCentre(p: Vec2)
    ensures IntersectsPoint(Around(p), p)
  {
  }

  /** The listed entities are pairwise different, as those of an ECS query are. */
  ghost predicate Distinct<E>(entities: seq<E>)
  {
    forall i, j :: 0 <= i < j < |entities| ==> entities[i] != entities[j]
  }

  /** Every listed entity has an entry in `pos`. */
  predicate Positioned<E>(entities: seq<E>, pos: map<E, Vec2>)
  {
    forall i :: 0 <= i < |entities| ==> entities[i] in pos
  }

  // ---------------------------------------------------------------------
  // Building the tree (lines 131-138)

  /** The entries the tree ends up holding: one per entity whose position
      lies in `region`, in iteration order. */
  function InRegion<E>(entities: seq<E>, pos: map<E, Vec2>, region: Rect): (r: seq<Entry<E>>)
    requires Positioned(entities, pos)
  {
    if |entities| == 0 then []
    else
      var q := entities[0];
      (if Contains(region, pos[q]) then [Entry(pos[q], q)] else []) + InRegion(entities[1..], pos, region)
  }

  /** An entry is inserted exactly when it pairs an entity with its position
      and that position lies in the region. */
  lemma {:induction false} InRegionMembers<E>(entities: seq<E>, pos: map<E, Vec2>, region: Rect, e: Entry<E>)
    requires Positioned(entities, pos)
    ensures e in InRegion(entities, pos, region)
            <==> e.item in entities && e.position == pos[e.item] && Contains(region, e.position)
    decreases entities
  {
    if |entities| > 0 {
      InRegionMembers(entities[1..], pos, region, e);
      assert forall x :: x in entities <==> x == entities[0] || x in entities[1..];
    }
  }

  /** The insertion loop: every entity's position, in order; a position
      outside the region is refused and dropped. A tree that is internal
      stays internal through the loop. */
  function InsertEntities<E>(t: QuadTree<E>, entities: seq<E>, pos: map<E, Vec2>, fuel: nat): (r: Fueled<QuadTree<E>>)
    requires Valid(t) && Positioned(entities, pos)
    ensures r.Finished? ==> Valid(r.value) && SameFrame(t, r.value)
    ensures r.Finished? ==> Contents(r.value) == Contents(t) + multiset(InRegion(entities, pos, t.region))
    ensures r.Finished? && IsInternal(t) ==> IsInternal(r.value)
    decreases entities
  {
    if |entities| == 0 then Finished(t)
    else
      var q := entities[0];
      match Insert(t, pos[q], q, fuel)
      case OutOfFuel => OutOfFuel
      case Finished(placed) => InsertEntities(placed.result, entities[1..], pos, fuel)
  }

  /** The per-step tree before any insertion: an empty leaf over the window
      with room for `Capacity` entries. */
  function StepTree<E>(width: real, height: real): (t: QuadTree<E>)
    ensures Valid(t) && IsLeaf(t) && Contents(t) == multiset{}
    ensures t.region == Window(width, height) && t.maxPoints == Capacity
  {
    New(Window(width, height), Capacity)
  }

  /** A fresh tree over the window with capacity 100, holding every entity
      whose position lies in the window. */
  function BuildTree<E>(entities: seq<E>, pos: map<E, Vec2>, width: real, height: real, fuel: nat): (r: Fueled<QuadTree<E>>)
    requires Positioned(entities, pos)
    ensures r.Finished? ==> Valid(r.value)
    ensures r.Finished? ==> r.value.region == Window(width, height) && r.value.maxPoints == Capacity
    ensures r.Finished? ==> Contents(r.value) == multiset(InRegion(entities, pos, Window(width, height)))
  {
    InsertEntities(StepTree(width, height), entities, pos, fuel)
  }

  // ---------------------------------------------------------------------
  // Neighbour queries (lines 142-159)

  /** Reference definition without a tree: the entities in the window whose
      position passes the point test of the circle around `center`. */
  function Nearby<E>(entities: seq<E>, pos: map<E, Vec2>, region: Rect, center: Vec2): set<E>
    requires Positioned(entities, pos)
  {
    set i | 0 <= i < |entities| && Contains(region, pos[entities[i]])
                                && IntersectsPoint(Around(center), pos[entities[i]]) :: entities[i]
  }

  /** A query on the built tree returns exactly the brute-force neighbour set. */
  lemma QueryIsNearby<E>(t: QuadTree<E>, entities: seq<E>, pos: map<E, Vec2>, region: Rect, center: Vec2)
    requires Positioned(entities, pos) && Valid(t)
    requires Contents(t) == multiset(InRegion(entities, pos, region))
    ensures Query(t, Around(center), {}) == Nearby(entities, pos, region, center)
  {
    var s := Around(center);
    var found := Query(t, s, {});
    forall q | q in found
      ensures q in Nearby(entities, pos, region, center)
    {
      var e :| e in Contents(t) && IntersectsPoint(s, e.position) && e.item == q;
      InRegionMembers(entities, pos, region, e);
      var i :| 0 <= i < |entities| && entities[i] == q;
    }
    forall q | q in Nearby(entities, pos, region, center)
      ensures q in found
    {
      var e := Entry(pos[q], q);
      InRegionMembers(entities, pos, region, e);
      assert e in Contents(t);
    }
  }

  /** What the inner loop does, independent of the order it visits the set:
      nothing if the entity is already a key, otherwise every other neighbour
      is mapped to the entity, overwriting what it was mapped to before. */
  function RecordNeighbours<E>(collisions: map<E, E>, entity: E, neighbours: set<E>): (r: map<E, E>)
    ensures entity in collisions ==> r == collisions
    ensures entity !in collisions ==>
      && r.Keys == collisions.Keys + (neighbours - {entity})
      && (forall q :: q in neighbours && q != entity ==> r[q] == entity)
      && (forall k :: k in collisions && k !in neighbours ==> r[k] == collisions[k])
  {
    if entity in collisions then collisions
    else collisions + map q | q in neighbours && q != entity :: entity
  }

  /** Recording one neighbour first and the rest afterwards records them all. */
  lemma RecordOneMore<E>(collisions: map<E, E>, entity: E, q: E, rest: set<E>)
    requires entity !in collisions
    ensures RecordNeighbours(if q != entity then collisions[q := entity] else collisions, entity, rest)
            == RecordNeighbours(collisions, entity, {q} + rest)
  {
    var lhs := RecordNeighbours(if q != entity then collisions[q := entity] else collisions, entity, rest);
    var rhs := RecordNeighbours(collisions, entity, {q} + rest);
    assert lhs.Keys == rhs.Keys;
    forall k | k in lhs
      ensures lhs[k] == rhs[k]
    {
    }
  }

  /** The inner loop over one entity's query results, in the order `order`
      the set yields them: `collisions[q] := entity` for every `q != entity`,
      unless the entity is already a key. Its result does not depend on the
      order: the keys it adds differ from the entity, so the guard never
      changes during the loop. */
  function RecordLoop<E>(order: seq<E>, entity: E, collisions: map<E, E>): (r: map<E, E>)
    ensures r == RecordNeighbours(collisions, entity, set q | q in order)
    decreases order
  {
    if |order| == 0 then
      assert (set q | q in order) == {};
      assert RecordNeighbours(collisions, entity, {}) == collisions;
      collisions
    else
      var q := order[0];
      var next := if q != entity && entity !in collisions then collisions[q := entity] else collisions;
      assert (set x | x in order) == {q} + (set x | x in order[1..]);
      if entity !in collisions then
        assert entity !in next;
        RecordOneMore(collisions, entity, q, set x | x in order[1..]);
        RecordLoop(order[1..], entity, next)
      else
        RecordLoop(order[1..], entity, next)
  }

  /** The outer loop over the entities, querying the tree for each. The
      neighbour set starts empty for every entity (it is cleared after use). */
  function CollectCollisions<E>(t: QuadTree<E>, pos: map<E, Vec2>, todo: seq<E>, collisions: map<E, E>): (r: map<E, E>)
    requires Valid(t) && Positioned(todo, pos)
    ensures collisions.Keys <= r.Keys
    ensures NoSelfPairs(collisions) ==> NoSelfPairs(r)
    decreases todo
  {
    if |todo| == 0 then collisions
    else
      var entity := todo[0];
      var neighbours := Query(t, Around(pos[entity]), {});
      CollectCollisions(t, pos, todo[1..], RecordNeighbours(collisions, entity, neighbours))
  }

  /** Reference pairing: the same loop over brute-force neighbour sets. */
  function ReferenceCollisions<E>(entities: seq<E>, pos: map<E, Vec2>, region: Rect, todo: seq<E>, collisions: map<E, E>): map<E, E>
    requires Positioned(entities, pos) && Positioned(todo, pos)
    decreases todo
  {
    if |todo| == 0 then collisions
    else
      var entity := todo[0];
      var neighbours := Nearby(entities, pos, region, pos[entity]);
      ReferenceCollisions(entities, pos, region, todo[1..], RecordNeighbours(collisions, entity, neighbours))
  }

  lemma {:induction false} CollectIsReference<E>(t: QuadTree<E>, entities: seq<E>, pos: map<E, Vec2>, region: Rect, todo: seq<E>, collisions: map<E, E>)
    requires Positioned(entities, pos) && Positioned(todo, pos) && Valid(t)
    requires Contents(t) == multiset(InRegion(entities, pos, region))
    ensures CollectCollisions(t, pos, todo, collisions)
            == ReferenceCollisions(entities, pos, region, todo, collisions)
    decreases todo
  {
    if |todo| > 0 {
      QueryIsNearby(t, entities, pos, region, pos[todo[0]]);
      var next := RecordNeighbours(collisions, todo[0], Nearby(entities, pos, region, pos[todo[0]]));
      CollectIsReference(t, entities, pos, region, todo[1..], next);
    }
  }

  // ---------------------------------------------------------------------
  // What the recorded pairs satisfy

  /** No entity is recorded as colliding with itself. */
  predicate NoSelfPairs<E>(collisions: map<E, E>)
  {
    forall k :: k in collisions ==> collisions[k] != k
  }

  /** Every recorded key lies in the window within the radius of its partner. */
  ghost predicate PairsClose<E>(collisions: map<E, E>, pos: map<E, Vec2>, region: Rect)
  {
    forall k :: k in collisions ==>
      && k in pos && collisions[k] in pos
      && Contains(region, pos[k])
      && IntersectsPoint(Around(pos[collisions[k]]), pos[k])
  }

  lemma {:induction false} ReferenceKeepsInvariants<E>(entities: seq<E>, pos: map<E, Vec2>, region: Rect, todo: seq<E>, collisions: map<E, E>)
    requires Positioned(entities, pos) && Positioned(todo, pos)
    requires NoSelfPairs(collisions) && PairsClose(collisions, pos, region)
    ensures NoSelfPairs(ReferenceCollisions(entities, pos, region, todo, collisions))
    ensures PairsClose(ReferenceCollisions(entities, pos, region, todo, collisions), pos, region)
    decreases todo
  {
    if |todo| > 0 {
      var entity := todo[0];
      var neighbours := Nearby(entities, pos, region, pos[entity]);
      var next := RecordNeighbours(collisions, entity, neighbours);
      forall k | k in next
        ensures next[k] != k && k in pos && next[k] in pos && Contains(region, pos[k])
                && IntersectsPoint(Around(pos[next[k]]), pos[k])
      {
        if entity !in collisions && k in neighbours && k != entity {
          var i :| 0 <= i < |entities| && entities[i] == k
                   && Contains(region, pos[entities[i]])
                   && IntersectsPoint(Around(pos[entity]), pos[entities[i]]);
        }
      }
      ReferenceKeepsInvariants(entities, pos, region, todo[1..], next);
    }
  }

  /** The pairing half of one step: the collision map, once the budget is
      large enough for every insertion into the tree to return (any larger
      budget then gives the same map, `CollisionPairsFuelIrrelevant`). */
  function CollisionPairs<E>(entities: seq<E>, pos: map<E, Vec2>, width: real, height: real, fuel: nat): (r: Fueled<map<E, E>>)
    requires Positioned(entities, pos)
    ensures r.Finished? ==>
      r.value == ReferenceCollisions(entities, pos, Window(width, height), entities, map[])
    ensures r.Finished? ==> NoSelfPairs(r.value) && PairsClose(r.value, pos, Window(width, height))
  {
    match BuildTree(entities, pos, width, height, fuel)
    case OutOfFuel => OutOfFuel
    case Finished(t) =>
      CollectIsReference(t, entities, pos, Window(width, height), entities, map[]);
      ReferenceKeepsInvariants(entities, pos, Window(width, height), entities, map[]);
      Finished(CollectCollisions(t, pos, entities, map[]))
  }

  /** With at most 100 entities the tree never subdivides, so the step
      finishes with no fuel at all. */
  lemma {:induction false} InsertEntitiesWithinCapacity<E>(t: QuadTree<E>, entities: seq<E>, pos: map<E, Vec2>, fuel: nat)
    requires Valid(t) && IsLeaf(t) && Positioned(entities, pos)
    requires |t.points.value| + |entities| <= t.maxPoints
    ensures InsertEntities(t, entities, pos, fuel).Finished?
    ensures IsLeaf(InsertEntities(t, entities, pos, fuel).value)
    decreases entities
  {
    if |entities| > 0 {
      var q := entities[0];
      var placed := Insert(t, pos[q], q, fuel).value;
      assert placed.result.points.Some? && |placed.result.points.value| <= |t.points.value| + 1;
      InsertEntitiesWithinCapacity(placed.result, entities[1..], pos, fuel);
    }
  }

  lemma CollisionPairsWithinCapacity<E>(entities: seq<E>, pos: map<E, Vec2>, width: real, height: real, fuel: nat)
    requires Positioned(entities, pos) && |entities| <= Capacity
    ensures CollisionPairs(entities, pos, width, height, fuel).Finished?
  {
    InsertEntitiesWithinCapacity(StepTree(width, height), entities, pos, fuel);
  }

  /** Once the insertion loop finishes, any larger budget gives the same
      tree. */
  lemma {:induction false} InsertEntitiesFuelIrrelevant<E>(t: QuadTree<E>, entities: seq<E>, pos: map<E, Vec2>, fuel: nat, more: nat)
    requires Valid(t) && Positioned(entities, pos) && fuel <= more
    requires InsertEntities(t, entities, pos, fuel).Finished?
    ensures InsertEntities(t, entities, pos, more) == InsertEntities(t, entities, pos, fuel)
    decreases entities
  {
    if |entities| > 0 {
      var q := entities[0];
      InsertFuelIrrelevant(t, pos[q], q, fuel, more);
      var placed := Insert(t, pos[q], q, fuel).value;
      InsertEntitiesFuelIrrelevant(placed.result, entities[1..], pos, fuel, more);
    }
  }

  /** The collision map does not depend on the budget: `OutOfFuel` means only
      that the budget was too small for building the tree. */
  lemma CollisionPairsFuelIrrelevant<E>(entities: seq<E>, pos: map<E, Vec2>, width: real, height: real, fuel: nat, more: nat)
    requires Positioned(entities, pos) && fuel <= more
    requires CollisionPairs(entities, pos, width, height, fuel).Finished?
    ensures CollisionPairs(entities, pos, width, height, more) == CollisionPairs(entities, pos, width, height, fuel)
  {
    InsertEntitiesFuelIrrelevant(StepTree(width, height), entities, pos, fuel, more);
  }

  // ---------------------------------------------------------------------
  // Velocity exchange (lines 162-176)

  /** One recorded pair `(p1, p2)`: `v(p2) := -v(p1)`, then
      `v(p1) := -(old v(p2))`. Every other velocity is unchanged. */
  function ExchangePair<E>(vel: map<E, Vec2>, p1: E, p2: E): (r: map<E, Vec2>)
    requires p1 in vel && p2 in vel
    ensures r.Keys == vel.Keys
    ensures r[p1] == Neg(vel[p2]) && r[p2] == Neg(vel[p1])
    ensures forall k :: k in vel && k != p1 && k != p2 ==> r[k] == vel[k]
  {
    var v1 := vel[p1];
    var tmp := vel[p2];
    var updated := vel[p2 := Neg(v1)];
    updated[p1 := Neg(tmp)]
  }

  /** Applying the exchange to the same pair twice restores every velocity. */
  lemma ExchangeTwiceRestores<E>(vel: map<E, Vec2>, p1: E, p2: E)
    requires p1 in vel && p2 in vel
    ensures ExchangePair(ExchangePair(vel, p1, p2), p1, p2) == vel
  {
    var once := ExchangePair(vel, p1, p2);
    var twice := ExchangePair(once, p1, p2);
    assert forall k :: k in vel ==> twice[k] == vel[k];
  }

  /** A head-on pair, whose velocities are opposite, leaves the exchange
      with the velocities it had. */
  lemma ExchangeOppositeKeeps<E>(vel: map<E, Vec2>, p1: E, p2: E)
    requires p1 in vel && p2 in vel
    requires vel[p1] == Neg(vel[p2])
    ensures ExchangePair(vel, p1, p2) == vel
  {
    var r := ExchangePair(vel, p1, p2);
    assert Neg(vel[p1]) == vel[p2];
    forall k | k in vel
      ensures r[k] == vel[k]
    {
    }
  }

  /** The entities a sequence of recorded keys touches: the keys and their partners. */
  function Involved<E>(collisions: map<E, E>, keys: seq<E>): set<E>
  {
    (set i | 0 <= i < |keys| :: keys[i])
    + (set i | 0 <= i < |keys| && keys[i] in collisions :: collisions[keys[i]])
  }

  /** The exchange loop over the recorded pairs, keys taken in the order
      `keys`. Entities no visited pair involves keep their velocity. */
  function ExchangeLoop<E>(vel: map<E, Vec2>, collisions: map<E, E>, keys: seq<E>): (r: map<E, Vec2>)
    requires forall i :: 0 <= i < |keys| ==>
      keys[i] in collisions && keys[i] in vel && collisions[keys[i]] in vel
    ensures r.Keys == vel.Keys
    ensures forall x :: x in vel && x !in Involved(collisions, keys) ==> r[x] == vel[x]
    decreases keys
  {
    if |keys| == 0 then vel
    else
      var next := ExchangePair(vel, keys[0], collisions[keys[0]]);
      assert forall x :: x in Involved(collisions, keys[1..]) ==> x in Involved(collisions, keys) by {
        forall x | x in Involved(collisions, keys[1..])
          ensures x in Involved(collisions, keys)
        {
          var i :| 0 <= i < |keys[1..]| && (x == keys[1..][i] || (keys[1..][i] in collisions && x == collisions[keys[1..][i]]));
          assert keys[1..][i] == keys[i + 1];
        }
      }
      assert keys[0] in Involved(collisions, keys) && collisions[keys[0]] in Involved(collisions, keys);
      ExchangeLoop(next, collisions, keys[1..])
  }

  /** The pair recorded under `k` shares neither entity with any other
      recorded pair, and is not a self-pair. */
  ghost predicate Isolated<E>(collisions: map<E, E>, k: E)
  {
    && k in collisions && collisions[k] != k
    && forall j :: j in collisions && j != k ==>
         j != collisions[k] && collisions[j] != k && collisions[j] != collisions[k]
  }

  /** `keys` lists every key of `collisions` exactly once: an iteration
      order of the map. */
  ghost predicate Enumerates<E>(collisions: map<E, E>, keys: seq<E>)
  {
    && Distinct(keys)
    && (forall k :: k in collisions ==> k in keys)
    && (forall i :: 0 <= i < |keys| ==> keys[i] in collisions)
  }

  /** An isolated pair ends exchanged and negated, whenever the loop reaches
      it: the other pairs touch neither of its entities. */
  lemma {:induction false} ExchangeLoopIsolated<E>(vel: map<E, Vec2>, collisions: map<E, E>, keys: seq<E>, k: E)
    requires forall i :: 0 <= i < |keys| ==>
      keys[i] in collisions && keys[i] in vel && collisions[keys[i]] in vel
    requires Distinct(keys) && k in keys && Isolated(collisions, k)
    ensures var r := ExchangeLoop(vel, collisions, keys);
      r[k] == Neg(vel[collisions[k]]) && r[collisions[k]] == Neg(vel[k])
    decreases keys
  {
    var m := collisions[k];
    var next := ExchangePair(vel, keys[0], collisions[keys[0]]);
    var rest := keys[1..];
    assert forall i :: 0 <= i < |rest| ==> rest[i] == keys[i + 1];
    if keys[0] == k {
      forall i | 0 <= i < |rest|
        ensures rest[i] != k && rest[i] != m && collisions[rest[i]] != k && collisions[rest[i]] != m
      {
        assert keys[0] != keys[i + 1];
      }
      assert k !in Involved(collisions, rest) && m !in Involved(collisions, rest);
    } else {
      assert keys[0] != m && collisions[keys[0]] != k && collisions[keys[0]] != m;
      assert next[k] == vel[k] && next[m] == vel[m];
      assert Distinct(rest) && k in rest;
      ExchangeLoopIsolated(next, collisions, rest, k);
    }
  }

  /** The exchange loop of the step over an iteration order `keys` of the
      recorded pairs. Entities in no recorded pair keep their velocity; the
      two entities of an isolated pair end with each other's velocity,
      negated, whatever the order. */
  function ExchangeAll<E>(vel: map<E, Vec2>, collisions: map<E, E>, keys: seq<E>): (r: map<E, Vec2>)
    requires Enumerates(collisions, keys)
    requires forall k :: k in collisions ==> k in vel && collisions[k] in vel
    ensures r.Keys == vel.Keys
    ensures forall x :: x in vel && x !in collisions && (forall k :: k in collisions ==> collisions[k] != x)
                        ==> r[x] == vel[x]
    ensures forall k :: k in collisions && Isolated(collisions, k) ==>
      r[k] == Neg(vel[collisions[k]]) && r[collisions[k]] == Neg(vel[k])
  {
    assert forall i :: 0 <= i < |keys| ==> keys[i] in collisions;
    var r := ExchangeLoop(vel, collisions, keys);
    assert forall k :: k in collisions && Isolated(collisions, k) ==>
      r[k] == Neg(vel[collisions[k]]) && r[collisions[k]] == Neg(vel[k]) by {
      forall k | k in collisions && Isolated(collisions, k)
        ensures r[k] == Neg(vel[collisions[k]]) && r[collisions[k]] == Neg(vel[k])
      {
        ExchangeLoopIsolated(vel, collisions, keys, k);
      }
    }
    r
  }
}
