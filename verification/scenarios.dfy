/** Concrete scenarios, proved on the model: two entities meeting head-on,
    and five clustered points filling a capacity-4 quadtree. */
module Scenarios {
  import opened Outcomes
  import opened Geometry
  import opened Shapes
  import opened Quadtree
  import opened QuadtreeFacts
  import opened Collision

  // ---------------------------------------------------------------------
  // Two entities 1.0 apart, radius 2.5

  const Pos2: map<nat, Vec2> := map[0 := Vec2(0.0, 0.0), 1 := Vec2(1.0, 0.0)]
  const Vel2: map<nat, Vec2> := map[0 := Vec2(1.0, 0.0), 1 := Vec2(-1.0, 0.0)]
  const Pair: seq<nat> := [0, 1]

  /** The query around entity 0 sees both entities. */
  lemma BothNearFirst()
    ensures Nearby(Pair, Pos2, Window(100.0, 100.0), Pos2[0]) == {0, 1}
  {
    var w := Window(100.0, 100.0);
    var seen := Nearby(Pair, Pos2, w, Pos2[0]);
    assert 0 in seen by {
      assert Pair[0] == 0 && Contains(w, Pos2[Pair[0]]);
      assert IntersectsPoint(Around(Pos2[0]), Pos2[Pair[0]]);
    }
    assert 1 in seen by {
      assert Pair[1] == 1 && Contains(w, Pos2[Pair[1]]);
      assert IntersectsPoint(Around(Pos2[0]), Pos2[Pair[1]]);
    }
  }

  /** Entity 0 records entity 1 as its partner and not itself. */
  lemma FirstRecordsSecond()
    ensures RecordNeighbours(map[], 0, {0, 1}) == map[1 := 0]
  {
    var r := RecordNeighbours(map[], 0, {0, 1});
    assert r.Keys == {1};
  }

  /** Entity 1 is then already a key, so its own query adds nothing. */
  lemma ReferenceOnePair()
    ensures ReferenceCollisions(Pair, Pos2, Window(100.0, 100.0), Pair, map[]) == map[1 := 0]
  {
    var w := Window(100.0, 100.0);
    BothNearFirst();
    FirstRecordsSecond();
    assert Pair[0] == 0 && Pair[1..] == [1];
    var after0 := RecordNeighbours(map[], 0, Nearby(Pair, Pos2, w, Pos2[0]));
    assert after0 == map[1 := 0];
    assert ReferenceCollisions(Pair, Pos2, w, Pair, map[]) == ReferenceCollisions(Pair, Pos2, w, [1], after0);
    var s: seq<nat> := [1];
    assert s[0] == 1 && s[1..] == [];
    assert ReferenceCollisions(Pair, Pos2, w, [1], after0) == ReferenceCollisions(Pair, Pos2, w, [], after0);
  }

  /** Whatever the fuel, the step finishes with exactly one pair. */
  lemma TwoEntitiesFormOnePair(fuel: nat)
    ensures CollisionPairs(Pair, Pos2, 100.0, 100.0, fuel) == Finished(map[1 := 0])
  {
    CollisionPairsWithinCapacity(Pair, Pos2, 100.0, 100.0, fuel);
    ReferenceOnePair();
  }

  /** The exchange loop over the single key 1 is one exchange of (1, 0). */
  lemma ExchangeOneKey()
    ensures ExchangeAll(Vel2, map[1 := 0], [1]) == ExchangePair(Vel2, 1, 0)
  {
    var c: map<nat, nat> := map[1 := 0];
    var ks: seq<nat> := [1];
    assert ks[0] == 1 && c[ks[0]] == 0 && ks[1..] == [];
  }

  /** Exchanging and negating the velocities (1, 0) and (-1, 0) of a
      head-on pair leaves both as they were. */
  lemma HeadOnPairKeepsVelocities()
    ensures ExchangeAll(Vel2, map[1 := 0], [1]) == Vel2
  {
    ExchangeOppositeKeeps(Vel2, 1, 0);
    ExchangeOneKey();
  }

  // ---------------------------------------------------------------------
  // Capacity 4 over (0,0,100,100): the points (1,1), (2,1), (3,1), (4,1)
  // and then (5,1)

  const Square: Rect := Rect(0.0, 0.0, 100.0, 100.0)

  function Point(i: nat): Entry<nat>
  {
    Entry(Vec2(i as real, 1.0), i)
  }

  const Cluster: seq<Entry<nat>> := [Point(1), Point(2), Point(3), Point(4)]

  /** The root leaf after the first `k` cluster points are inserted. */
  function Partial(k: nat): QuadTree<nat>
    requires k <= 4
  {
    Appended(New<nat>(Square, 4), Cluster[..k])
  }

  /** The root leaf of capacity 4 holding the four cluster points. */
  function Full(): QuadTree<nat>
  {
    Appended(New<nat>(Square, 4), Cluster)
  }

  /** Each of the first four insertions appends to the root leaf, whatever
      the budget: the root starts empty and ends full. */
  lemma InsertsFillRoot(k: nat, fuel: nat)
    requires k < 4
    ensures Partial(0) == New<nat>(Square, 4) && Partial(4) == Full()
    ensures Valid(Partial(k))
    ensures Insert(Partial(k), Cluster[k].position, Cluster[k].item, fuel) == Finished(Placed(true, Partial(k + 1)))
  {
    assert Cluster[..0] == [] && Cluster[..4] == Cluster;
    assert New<nat>(Square, 4).points.value + [] == [];
    assert Contains(Square, Cluster[k].position);
    AppendedValid(New<nat>(Square, 4), Cluster[..k]);
    InsertIntoLeafWithRoom(Partial(k), Cluster[k].position, Cluster[k].item, fuel);
    assert Entry(Cluster[k].position, Cluster[k].item) == Cluster[k];
    assert Cluster[..k] + [Cluster[k]] == Cluster[..k + 1];
    assert Partial(k).points.value == Cluster[..k];
    assert Partial(k + 1).points.value == Cluster[..k + 1];
  }

  /** The nested north-west quadrants of the square: side 100 / 2^n. */
  function Nested(n: nat): Rect
  {
    if n == 0 then Square else NorthWest(Nested(n - 1))
  }

  /** The four cluster points over the `n`-th nested quadrant: the leaf the
      insertion of (5,1) reaches after `n` subdivisions. */
  function Level(n: nat): QuadTree<nat>
  {
    Full().(region := Nested(n))
  }

  /** The side of the `n`-th nested quadrant, for the first five. */
  lemma NestedSide(n: nat) returns (w: real)
    requires n <= 4
    ensures Nested(n) == Rect(0.0, 0.0, w, w) && 6.25 <= w
    ensures n < 4 ==> 12.5 <= w
    ensures n == 4 ==> w == 6.25
    ensures n == 3 ==> w == 12.5
    ensures n == 2 ==> w == 25.0
    ensures n == 1 ==> w == 50.0
    ensures n == 0 ==> w == 100.0
  {
    if n == 0 {
      w := 100.0;
    } else {
      var v := NestedSide(n - 1);
      w := v / 2.0;
    }
  }

  /** The cluster points sit at height 1, between x = 1 and x = 4. */
  lemma ClusterNearCorner()
    ensures forall e | e in Cluster :: e.position.y == 1.0 && 1.0 <= e.position.x <= 4.0
  {
  }

  /** Each level holds the four cluster points as a valid full leaf. */
  lemma LevelFull(n: nat, w: real)
    requires n <= 4 && Nested(n) == Rect(0.0, 0.0, w, w) && 6.25 <= w
    ensures Level(n).region == Rect(0.0, 0.0, w, w) && Level(n).points.value == Cluster
    ensures Valid(Level(n)) && IsLeaf(Level(n)) && |Level(n).points.value| == Level(n).maxPoints
  {
    assert Full().points.value == Cluster;
    ClusterNearCorner();
  }

  /** A point at height 1 left of the middle of a square at the origin is
      first placed in the north-west quadrant. */
  lemma FirstInNorthWest(w: real, x: real)
    requires 0.0 <= x < w / 2.0 && 1.0 <= w / 2.0
    ensures Contains(Rect(0.0, 0.0, w, w), Vec2(x, 1.0))
    ensures FirstQuadrant(Rect(0.0, 0.0, w, w), Vec2(x, 1.0)) == NorthWest(Rect(0.0, 0.0, w, w))
  {
  }

  /** Down to side 12.5 every cluster point, and (5,1), lies in the
      north-west quadrant (and not the north-east one tried first), so the
      full leaf passes all its points one level down. */
  lemma LevelDescends(n: nat)
    requires n < 4
    ensures Valid(Level(n)) && IsLeaf(Level(n)) && |Level(n).points.value| == Level(n).maxPoints
    ensures Clustered(Level(n), Point(5).position)
    ensures Descended(Level(n), Point(5).position) == Level(n + 1)
  {
    var w := NestedSide(n);
    LevelFull(n, w);
    ClusterNearCorner();
    var t := Level(n);
    var p := Point(5).position;
    FirstInNorthWest(w, 5.0);
    forall e | e in t.points.value
      ensures Contains(t.region, e.position) && FirstQuadrant(t.region, e.position) == FirstQuadrant(t.region, p)
    {
      FirstInNorthWest(w, e.position.x);
    }
    assert Clustered(t, p);
  }

  /** At side 6.25 the first quadrant containing (5,1) is the north-east
      one, and (1,1) lies outside it. */
  lemma LastLevelSplits()
    ensures Valid(Level(4)) && IsLeaf(Level(4)) && |Level(4).points.value| == Level(4).maxPoints
    ensures Contains(Level(4).region, Point(5).position)
    ensures Point(1) in Level(4).points.value
    ensures !Contains(FirstQuadrant(Level(4).region, Point(5).position), Point(1).position)
  {
    var w := NestedSide(4);
    LevelFull(4, w);
    var r := Rect(0.0, 0.0, 6.25, 6.25);
    var p := Point(5).position;
    assert NorthEast(r) == Rect(3.125, 0.0, 3.125, 3.125);
    assert Contains(NorthEast(r), p) && !Contains(NorthEast(r), Point(1).position);
    assert FirstQuadrant(r, p) == NorthEast(r);
    assert Cluster[0] == Point(1);
  }

  /** At the last level one subdivision separates (5,1) from (1,1). */
  lemma LastLevelInsert(fuel: nat)
    ensures Valid(Level(4))
    ensures Insert(Level(4), Point(5).position, 5, fuel).Finished? <==> fuel >= 1
  {
    LastLevelSplits();
    if fuel >= 1 {
      OverflowWithOutlierFinishes(Level(4), Point(5).position, 5, fuel, Point(1));
    }
  }

  /** Above the last level the insertion finishes exactly when it finishes
      one level down with one unit less. */
  lemma LevelStep(n: nat, fuel: nat)
    requires n < 4
    ensures Valid(Level(n)) && Valid(Level(n + 1))
    ensures Insert(Level(n), Point(5).position, 5, fuel).Finished?
            <==> fuel >= 1 && Insert(Level(n + 1), Point(5).position, 5, fuel - 1).Finished?
  {
    LevelDescends(n);
    if fuel >= 1 {
      InsertClusteredDescends(Level(n), Point(5).position, 5, fuel);
    }
  }

  /** From the `n`-th level, inserting (5,1) finishes exactly when the
      budget covers the `5 - n` subdivisions still to come. */
  lemma {:induction false} LevelInsert(n: nat, fuel: nat)
    requires n <= 4
    ensures Valid(Level(n))
    ensures Insert(Level(n), Point(5).position, 5, fuel).Finished? <==> n + fuel >= 5
    decreases 4 - n
  {
    if n == 4 {
      LastLevelInsert(fuel);
    } else {
      LevelStep(n, fuel);
      if fuel >= 1 {
        LevelInsert(n + 1, fuel - 1);
      }
    }
  }

  /** Inserting (5,1) into the full root finishes exactly when the budget
      allows five nested subdivisions: the root and the north-west
      quadrants of side 50, 25 and 12.5 each pass all four points one level
      down, and only the quadrant of side 6.25 separates (5,1) and (4,1)
      from the rest. */
  lemma FifthPointNeedsFiveSubdivisions(fuel: nat)
    ensures Valid(Full())
    ensures Insert(Full(), Point(5).position, 5, fuel).Finished? <==> fuel >= 5
  {
    LevelInsert(0, fuel);
    assert Level(0) == Full();
  }
}
