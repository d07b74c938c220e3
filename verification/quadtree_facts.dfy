/** Properties of the quadtree beyond the contracts of its operations:
    when insertion finishes and when it recurses forever, what subdivision
    produces, that the fuel bound never changes an answer, and what a query
    finds. */
module QuadtreeFacts {
  import opened Outcomes
  import opened Geometry
  import opened Shapes
  import opened Quadtree

  // ---------------------------------------------------------------------
  // Addressing the children by index, in insertion order NE, NW, SE, SW

  function Child<T>(c: Children<T>, k: nat): QuadTree<T>
    requires k < 4
  {
    if k == 0 then c.northeast
    else if k == 1 then c.northwest
    else if k == 2 then c.southeast
    else c.southwest
  }

  function WithChild<T>(c: Children<T>, k: nat, u: QuadTree<T>): Children<T>
    requires k < 4
  {
    if k == 0 then c.(northeast := u)
    else if k == 1 then c.(northwest := u)
    else if k == 2 then c.(southeast := u)
    else c.(southwest := u)
  }

  /** The index of the child `QuadTreeChildren::insert` stores `p` in, or 4
      when no child's region contains it. */
  function FirstIndex<T>(c: Children<T>, p: Vec2): (k: nat)
    ensures k <= 4
    ensures k < 4 <==> InChildren(c, p)
    ensures k < 4 ==> Contains(Child(c, k).region, p)
    ensures forall j :: 0 <= j < k && j < 4 ==> !Contains(Child(c, j).region, p)
  {
    if Contains(c.northeast.region, p) then 0
    else if Contains(c.northwest.region, p) then 1
    else if Contains(c.southeast.region, p) then 2
    else if Contains(c.southwest.region, p) then 3
    else 4
  }

  /** `t` with the entries `es` appended to its leaf list. */
  function Appended<T>(t: QuadTree<T>, es: seq<Entry<T>>): QuadTree<T>
    requires t.points.Some?
  {
    t.(points := Some(t.points.value + es))
  }

  lemma ChildOfValid<T>(c: Children<T>, k: nat)
    requires EachValid(c) && k < 4
    ensures Valid(Child(c, k))
  {
  }

  lemma ChildOfChildrenValid<T>(c: Children<T>, region: Rect, maxPoints: nat, k: nat)
    requires ChildrenValid(c, region, maxPoints) && k < 4
    ensures Valid(Child(c, k)) && Child(c, k).maxPoints == maxPoints
  {
  }

  /** Replacing child `k` by a node with the same frame keeps every other
      child, keeps the routing of every position, and keeps validity. */
  lemma WithChildFacts<T>(c: Children<T>, k: nat, u: QuadTree<T>)
    requires k < 4 && SameFrame(Child(c, k), u)
    ensures Child(WithChild(c, k, u), k) == u
    ensures forall j :: 0 <= j < 4 && j != k ==> Child(WithChild(c, k, u), j) == Child(c, j)
    ensures forall q :: FirstIndex(WithChild(c, k, u), q) == FirstIndex(c, q)
    ensures EachValid(c) && Valid(u) ==> EachValid(WithChild(c, k, u))
  {
  }

  /** Appending entries that lie in the region to a leaf with room for them
      keeps it valid. */
  lemma AppendedValid<T>(t: QuadTree<T>, es: seq<Entry<T>>)
    requires Valid(t) && IsLeaf(t) && |t.points.value| + |es| <= t.maxPoints
    requires forall e :: e in es ==> Contains(t.region, e.position)
    ensures Valid(Appended(t, es)) && IsLeaf(Appended(t, es))
  {
  }

  // ---------------------------------------------------------------------
  // Insertion that needs no subdivision

  /** An out-of-bounds position is refused and the tree is returned as it
      was, whatever the fuel. */
  lemma InsertOutside<T>(t: QuadTree<T>, p: Vec2, item: T, fuel: nat)
    requires Valid(t) && !Contains(t.region, p)
    ensures Insert(t, p, item, fuel) == Finished(Placed(false, t))
  {
  }

  /** A leaf that is not full appends the entry at the end of its list,
      whatever the fuel. */
  lemma InsertIntoLeafWithRoom<T>(t: QuadTree<T>, p: Vec2, item: T, fuel: nat)
    requires Valid(t) && IsLeaf(t) && |t.points.value| < t.maxPoints && Contains(t.region, p)
    ensures Insert(t, p, item, fuel) == Finished(Placed(true, Appended(t, [Entry(p, item)])))
  {
  }

  /** If the first child containing `p` is a leaf with room, the block
      stores `p` at the end of that leaf and leaves the others alone. */
  lemma InsertChildrenIntoLeaf<T>(c: Children<T>, p: Vec2, item: T, fuel: nat)
    requires EachValid(c) && FirstIndex(c, p) < 4
    requires IsLeaf(Child(c, FirstIndex(c, p)))
    requires |Child(c, FirstIndex(c, p)).points.value| < Child(c, FirstIndex(c, p)).maxPoints
    ensures InsertChildren(c, p, item, fuel)
            == Finished(Placed(true, WithChild(c, FirstIndex(c, p),
                 Appended(Child(c, FirstIndex(c, p)), [Entry(p, item)]))))
  {
    var k := FirstIndex(c, p);
    if k >= 1 { InsertOutside(c.northeast, p, item, fuel); }
    if k >= 2 { InsertOutside(c.northwest, p, item, fuel); }
    if k >= 3 { InsertOutside(c.southeast, p, item, fuel); }
    InsertIntoLeafWithRoom(Child(c, k), p, item, fuel);
  }

  /** If inserting into the first child containing `p` never returns, the
      block's insertion never returns either. */
  lemma InsertChildrenDiverges<T>(c: Children<T>, p: Vec2, item: T, fuel: nat)
    requires EachValid(c) && FirstIndex(c, p) < 4
    requires Insert(Child(c, FirstIndex(c, p)), p, item, fuel) == OutOfFuel
    ensures InsertChildren(c, p, item, fuel) == OutOfFuel
  {
    var k := FirstIndex(c, p);
    if k >= 1 { InsertOutside(c.northeast, p, item, fuel); }
    if k >= 2 { InsertOutside(c.northwest, p, item, fuel); }
    if k >= 3 { InsertOutside(c.southeast, p, item, fuel); }
  }

  lemma WithChildTwice<T>(c: Children<T>, k: nat, u: QuadTree<T>, v: QuadTree<T>)
    requires k < 4
    ensures WithChild(WithChild(c, k, u), k, v) == WithChild(c, k, v)
  {
  }

  lemma AppendedTwice<T>(t: QuadTree<T>, e: Entry<T>, es: seq<Entry<T>>)
    requires t.points.Some?
    ensures Appended(Appended(t, [e]), es) == Appended(t, [e] + es)
  {
    assert t.points.value + [e] + es == t.points.value + ([e] + es);
  }

  /** One step of the loop in `subdivide`. */
  lemma DistributeUnfold<T>(c: Children<T>, es: seq<Entry<T>>, fuel: nat, d: Children<T>)
    requires EachValid(c) && |es| > 0
    requires forall e :: e in es ==> InChildren(c, e.position)
    requires InsertChildren(c, es[0].position, es[0].item, fuel) == Finished(Placed(true, d))
    ensures EachValid(d) && forall e :: e in es[1..] ==> InChildren(d, e.position)
    ensures Distribute(c, es, fuel) == Distribute(d, es[1..], fuel)
  {
    FirstMatchEffect(c, d, es[0]);
    forall e | e in es[1..]
      ensures InChildren(d, e.position)
    {
      assert e in es;
    }
  }

  /** Handing entries that all go to the same child `k`, a leaf with room
      for all of them, appends them to that leaf in order. */
  lemma {:induction false} DistributeToOneChild<T>(c: Children<T>, es: seq<Entry<T>>, k: nat, fuel: nat)
    requires EachValid(c) && k < 4 && IsLeaf(Child(c, k))
    requires |Child(c, k).points.value| + |es| <= Child(c, k).maxPoints
    requires forall e :: e in es ==> FirstIndex(c, e.position) == k
    requires forall e :: e in es ==> InChildren(c, e.position)
    ensures Distribute(c, es, fuel) == Finished(WithChild(c, k, Appended(Child(c, k), es)))
    decreases es
  {
    var leaf := Child(c, k);
    if |es| == 0 {
      assert leaf.points.value + es == leaf.points.value;
      assert Appended(leaf, es) == leaf;
      assert WithChild(c, k, leaf) == c;
    } else {
      var e0, rest := es[0], es[1..];
      assert e0 in es;
      InsertChildrenIntoLeaf(c, e0.position, e0.item, fuel);
      var leaf1 := Appended(leaf, [e0]);
      var d := WithChild(c, k, leaf1);
      DistributeUnfold(c, es, fuel, d);
      WithChildFacts(c, k, leaf1);
      forall e | e in rest
        ensures FirstIndex(d, e.position) == k
      {
        assert e in es;
      }
      DistributeToOneChild(d, rest, k, fuel);
      AppendedTwice(leaf, e0, rest);
      assert [e0] + rest == es;
      WithChildTwice(c, k, leaf1, Appended(leaf, es));
    }
  }

  // ---------------------------------------------------------------------
  // Subdivision

  /** Every child is a leaf with room for `n` more entries. */
  ghost predicate LeavesWithRoom<T>(c: Children<T>, n: nat)
  {
    forall k :: 0 <= k < 4 ==>
      IsLeaf(Child(c, k)) && |Child(c, k).points.value| + n <= Child(c, k).maxPoints
  }

  lemma InsertChildrenIntoLeaves<T>(c: Children<T>, p: Vec2, item: T, n: nat, fuel: nat)
    requires EachValid(c) && LeavesWithRoom(c, n + 1)
    ensures InsertChildren(c, p, item, fuel).Finished?
    ensures LeavesWithRoom(InsertChildren(c, p, item, fuel).value.result, n)
  {
    var k := FirstIndex(c, p);
    if k < 4 {
      assert IsLeaf(Child(c, k));
      InsertChildrenIntoLeaf(c, p, item, fuel);
      var d := WithChild(c, k, Appended(Child(c, k), [Entry(p, item)]));
      assert forall j :: 0 <= j < 4 && j != k ==> Child(d, j) == Child(c, j);
    } else {
      InsertOutside(c.northeast, p, item, fuel);
      InsertOutside(c.northwest, p, item, fuel);
      InsertOutside(c.southeast, p, item, fuel);
      InsertOutside(c.southwest, p, item, fuel);
    }
  }

  lemma {:induction false} DistributeIntoLeaves<T>(c: Children<T>, es: seq<Entry<T>>, fuel: nat)
    requires EachValid(c) && LeavesWithRoom(c, |es|)
    requires forall e :: e in es ==> InChildren(c, e.position)
    ensures Distribute(c, es, fuel).Finished?
    ensures LeavesWithRoom(Distribute(c, es, fuel).value, 0)
    decreases es
  {
    if |es| > 0 {
      InsertChildrenIntoLeaves(c, es[0].position, es[0].item, |es| - 1, fuel);
      var placed := InsertChildren(c, es[0].position, es[0].item, fuel).value;
      FirstMatchEffect(c, placed.result, es[0]);
      forall e | e in es[1..]
        ensures InChildren(placed.result, e.position)
      {
        assert e in es;
      }
      DistributeIntoLeaves(placed.result, es[1..], fuel);
    }
  }

  /** Subdividing a valid leaf always finishes, whatever the fuel: the leaf
      holds at most `maxPoints` entries, so no child fills up while they are
      handed down, and no entry is lost or duplicated. */
  lemma SubdivideFinishes<T>(t: QuadTree<T>, fuel: nat)
    requires Valid(t) && IsLeaf(t)
    ensures Subdivide(t, fuel).Finished?
    ensures Contents(Subdivide(t, fuel).value) == Contents(t)
    ensures forall k :: 0 <= k < 4 ==> IsLeaf(Child(Subdivide(t, fuel).value.children.value, k))
  {
    var c := EmptyQuadrants<T>(t.region, t.maxPoints);
    forall e | e in t.points.value
      ensures InChildren(c, e.position)
    {
      QuadrantsCover(t.region, e.position);
    }
    DistributeIntoLeaves(c, t.points.value, fuel);
  }

  /** What `subdivide` builds: an internal node whose four children have half
      the width and height, sit at offsets (0,0), (w/2,0), (0,h/2), (w/2,h/2),
      share the capacity, and together hold exactly the points the region
      holds. */
  lemma SubdivideTiles<T>(t: QuadTree<T>, fuel: nat, p: Vec2)
    requires Valid(t) && IsLeaf(t) && Subdivide(t, fuel).Finished?
    ensures var s := Subdivide(t, fuel).value;
      && IsInternal(s) && s.region == t.region
      && var c := s.children.value;
      && c.northwest.region == Rect(t.region.x, t.region.y, t.region.width / 2.0, t.region.height / 2.0)
      && c.northeast.region == Rect(t.region.x + t.region.width / 2.0, t.region.y, t.region.width / 2.0, t.region.height / 2.0)
      && c.southwest.region == Rect(t.region.x, t.region.y + t.region.height / 2.0, t.region.width / 2.0, t.region.height / 2.0)
      && c.southeast.region == Rect(t.region.x + t.region.width / 2.0, t.region.y + t.region.height / 2.0, t.region.width / 2.0, t.region.height / 2.0)
      && c.northeast.maxPoints == c.northwest.maxPoints == c.southeast.maxPoints == c.southwest.maxPoints == t.maxPoints
      && (Contains(t.region, p) <==> InChildren(c, p))
  {
    var s := Subdivide(t, fuel).value;
    assert ChildrenValid(s.children.value, t.region, t.maxPoints);
    QuadrantsCover(t.region, p);
  }

  // ---------------------------------------------------------------------
  // Unbounded recursion in the source

  /** With capacity 0 every in-bounds insertion subdivides forever: no fuel
      is ever enough. */
  lemma {:induction false} ZeroCapacityDiverges<T>(t: QuadTree<T>, p: Vec2, item: T, fuel: nat)
    requires Valid(t) && t.maxPoints == 0 && Contains(t.region, p)
    ensures Insert(t, p, item, fuel) == OutOfFuel
    decreases fuel, t
  {
    if t.points.Some? {
      if fuel > 0 {
        SubdivideFinishes(t, fuel - 1);
        var s := Subdivide(t, fuel - 1).value;
        ZeroCapacityDiverges(s, p, item, fuel - 1);
      }
    } else {
      var c := t.children.value;
      assert ChildrenValid(c, t.region, t.maxPoints);
      QuadrantsCover(t.region, p);
      var k := FirstIndex(c, p);
      ChildOfChildrenValid(c, t.region, t.maxPoints, k);
      ZeroCapacityDiverges(Child(c, k), p, item, fuel);
      InsertChildrenDiverges(c, p, item, fuel);
    }
  }

  /** A full leaf whose entries all sit at `p` never finishes inserting
      another entry at `p`: subdividing moves every entry into the same
      child, which is then full again, one level down. */
  lemma {:induction false} CoincidentOverflowDiverges<T>(t: QuadTree<T>, p: Vec2, item: T, fuel: nat)
    requires Valid(t) && IsLeaf(t) && Contains(t.region, p)
    requires |t.points.value| == t.maxPoints
    requires forall e :: e in t.points.value ==> e.position == p
    ensures Insert(t, p, item, fuel) == OutOfFuel
    decreases fuel
  {
    if fuel > 0 {
      assert Clustered(t, p);
      DescendedValid(t, p);
      InsertClusteredDescends(t, p, item, fuel);
      CoincidentOverflowDiverges(Descended(t, p), p, item, fuel - 1);
    }
  }

  /** The child a node's subdivision gives `p` to: the first quadrant
      containing `p`. */
  lemma FirstQuadrantIsFirstChild<T>(c: Children<T>, region: Rect, maxPoints: nat, p: Vec2)
    requires ChildrenValid(c, region, maxPoints) && Contains(region, p)
    ensures FirstIndex(c, p) < 4 && Child(c, FirstIndex(c, p)).region == FirstQuadrant(region, p)
  {
    QuadrantsCover(region, p);
  }

  /** Every entry of the leaf goes to the same child as `p`. */
  ghost predicate Clustered<T>(t: QuadTree<T>, p: Vec2)
  {
    && t.points.Some? && Contains(t.region, p)
    && forall e :: e in t.points.value ==>
         Contains(t.region, e.position) && FirstQuadrant(t.region, e.position) == FirstQuadrant(t.region, p)
  }

  /** The leaf one level down: the same entries over the first quadrant
      containing `p`. */
  function Descended<T>(t: QuadTree<T>, p: Vec2): QuadTree<T>
    requires Contains(t.region, p)
  {
    t.(region := FirstQuadrant(t.region, p))
  }

  /** Subdividing a leaf whose entries all go to the same child as `p` puts
      all of them, in order, into that child, which is the leaf one level
      down. */
  lemma SubdivideClustered<T>(t: QuadTree<T>, p: Vec2, fuel: nat) returns (d: Children<T>)
    requires Valid(t) && IsLeaf(t) && Contains(t.region, p)
    requires forall e :: e in t.points.value ==> FirstQuadrant(t.region, e.position) == FirstQuadrant(t.region, p)
    ensures Subdivide(t, fuel) == Finished(t.(points := None, children := Some(d)))
    ensures EachValid(d) && FirstIndex(d, p) < 4
    ensures Child(d, FirstIndex(d, p)) == Descended(t, p) && IsLeaf(Descended(t, p))
    ensures Valid(Descended(t, p))
  {
    var c := EmptyQuadrants<T>(t.region, t.maxPoints);
    FirstQuadrantIsFirstChild(c, t.region, t.maxPoints, p);
    var k := FirstIndex(c, p);
    forall e | e in t.points.value
      ensures FirstIndex(c, e.position) == k && InChildren(c, e.position)
    {
      FirstQuadrantIsFirstChild(c, t.region, t.maxPoints, e.position);
    }
    ChildOfChildrenValid(c, t.region, t.maxPoints, k);
    DistributeToOneChild(c, t.points.value, k, fuel);
    var leaf := Appended(Child(c, k), t.points.value);
    assert [] + t.points.value == t.points.value;
    assert leaf == Descended(t, p);
    d := WithChild(c, k, leaf);
    AppendedValid(Child(c, k), t.points.value);
    WithChildFacts(c, k, leaf);
  }

  /** The entries of the children other than child `k`. */
  ghost function OtherContents<T>(c: Children<T>, k: nat): multiset<Entry<T>>
    requires k < 4
  {
    if k == 0 then Contents(c.northwest) + Contents(c.southeast) + Contents(c.southwest)
    else if k == 1 then Contents(c.northeast) + Contents(c.southeast) + Contents(c.southwest)
    else if k == 2 then Contents(c.northeast) + Contents(c.northwest) + Contents(c.southwest)
    else Contents(c.northeast) + Contents(c.northwest) + Contents(c.southeast)
  }

  lemma ChildContentsSplit<T>(c: Children<T>, k: nat)
    requires k < 4
    ensures ChildContents(c) == Contents(Child(c, k)) + OtherContents(c, k)
  {
  }

  /** A full leaf whose region contains `p`: inserting `p` subdivides it. */
  ghost predicate FullLeafAt<T>(t: QuadTree<T>, p: Vec2)
  {
    Valid(t) && IsLeaf(t) && |t.points.value| == t.maxPoints && Contains(t.region, p)
  }

  /** A full leaf that subdivides into `s` finishes inserting exactly when
      the retry on `s` does, and then accepts with the retry's tree. */
  lemma InsertFullLeafRetries<T>(t: QuadTree<T>, p: Vec2, item: T, fuel: nat, s: QuadTree<T>)
    requires FullLeafAt(t, p) && fuel >= 1 && Subdivide(t, fuel - 1) == Finished(s)
    ensures Valid(s)
    ensures Insert(t, p, item, fuel).Finished? <==> Insert(s, p, item, fuel - 1).Finished?
    ensures Insert(t, p, item, fuel).Finished? ==>
      Insert(t, p, item, fuel) == Finished(Placed(true, Insert(s, p, item, fuel - 1).value.result))
  {
  }

  /** An internal node finishes inserting a position in its region exactly
      when the first child containing it does. */
  lemma InsertInternalFollowsFirst<T>(s: QuadTree<T>, p: Vec2, item: T, fuel: nat)
    requires Valid(s) && IsInternal(s) && Contains(s.region, p)
    ensures EachValid(s.children.value) && FirstIndex(s.children.value, p) < 4
    ensures Insert(s, p, item, fuel).Finished?
            <==> Insert(Child(s.children.value, FirstIndex(s.children.value, p)), p, item, fuel).Finished?
  {
    var c := s.children.value;
    assert ChildrenValid(c, s.region, s.maxPoints);
    QuadrantsCover(s.region, p);
    InsertChildrenFollowsFirst(c, p, item, fuel);
  }

  /** Inserting into a block follows the first child containing `p`: the
      block finishes exactly when that child's insertion does. */
  lemma InsertChildrenFollowsFirst<T>(c: Children<T>, p: Vec2, item: T, fuel: nat)
    requires EachValid(c) && FirstIndex(c, p) < 4
    ensures InsertChildren(c, p, item, fuel).Finished?
            <==> Insert(Child(c, FirstIndex(c, p)), p, item, fuel).Finished?
  {
    var k := FirstIndex(c, p);
    if k >= 1 { InsertOutside(c.northeast, p, item, fuel); }
    if k >= 2 { InsertOutside(c.northwest, p, item, fuel); }
    if k >= 3 { InsertOutside(c.southeast, p, item, fuel); }
  }

  /** The leaf one level down keeps the invariant, and stays full. */
  lemma DescendedValid<T>(t: QuadTree<T>, p: Vec2)
    requires Valid(t) && IsLeaf(t) && Clustered(t, p)
    ensures Valid(Descended(t, p)) && IsLeaf(Descended(t, p))
    ensures Descended(t, p).points == t.points && Descended(t, p).maxPoints == t.maxPoints
  {
    forall e | e in t.points.value
      ensures Contains(Descended(t, p).region, e.position)
    {
    }
  }

  /** The retry of `insert` after a subdivision, when the new position `p`
      goes where every stored entry goes: it finishes exactly when inserting
      `p` into the same full leaf one level down, with one unit of fuel
      less, does. */
  lemma InsertClusteredDescends<T>(t: QuadTree<T>, p: Vec2, item: T, fuel: nat)
    requires Valid(t) && IsLeaf(t) && |t.points.value| == t.maxPoints
    requires Clustered(t, p) && fuel >= 1
    ensures Valid(Descended(t, p))
    ensures Insert(t, p, item, fuel).Finished? <==> Insert(Descended(t, p), p, item, fuel - 1).Finished?
  {
    var d := SubdivideClustered(t, p, fuel - 1);
    RetryFollowsFirst(t, p, item, fuel, t.(points := None, children := Some(d)));
  }

  /** A full leaf that subdivides finishes inserting exactly when the child
      of the subdivision that first contains `p` does. */
  lemma RetryFollowsFirst<T>(t: QuadTree<T>, p: Vec2, item: T, fuel: nat, s: QuadTree<T>)
    requires FullLeafAt(t, p) && fuel >= 1 && Subdivide(t, fuel - 1) == Finished(s)
    ensures IsInternal(s) && EachValid(s.children.value) && FirstIndex(s.children.value, p) < 4
    ensures Insert(t, p, item, fuel).Finished?
            <==> Insert(Child(s.children.value, FirstIndex(s.children.value, p)), p, item, fuel - 1).Finished?
  {
    InsertFullLeafRetries(t, p, item, fuel, s);
    InsertInternalFollowsFirst(s, p, item, fuel - 1);
  }

  /** Below `s` the first child containing `p` is a leaf with room. */
  ghost predicate RoomBelow<T>(s: QuadTree<T>, p: Vec2)
  {
    && Valid(s) && IsInternal(s) && Contains(s.region, p)
    && var d := s.children.value;
    && FirstIndex(d, p) < 4 && IsLeaf(Child(d, FirstIndex(d, p)))
    && |Child(d, FirstIndex(d, p)).points.value| < Child(d, FirstIndex(d, p)).maxPoints
  }

  /** Subdividing a full leaf that holds an entry outside the first quadrant
      containing `p` leaves that quadrant's child a leaf with room. */
  lemma SubdivideLeavesRoom<T>(t: QuadTree<T>, p: Vec2, fuel: nat, e: Entry<T>) returns (s: QuadTree<T>)
    requires FullLeafAt(t, p)
    requires e in t.points.value && !Contains(FirstQuadrant(t.region, p), e.position)
    ensures Subdivide(t, fuel) == Finished(s) && RoomBelow(s, p)
  {
    SubdivideFinishes(t, fuel);
    s := Subdivide(t, fuel).value;
    var d := s.children.value;
    assert ChildrenValid(d, t.region, t.maxPoints);
    FirstQuadrantIsFirstChild(d, t.region, t.maxPoints, p);
    var k := FirstIndex(d, p);
    var leaf := Child(d, k);
    ChildOfValid(d, k);
    assert e in ChildContents(d);
    assert e !in Contents(leaf) by {
      if e in Contents(leaf) {
        ContentsInside(leaf, e);
      }
    }
    ChildContentsSplit(d, k);
    assert e in OtherContents(d, k);
  }

  /** An internal node whose first child containing `p` is a leaf with room
      finishes inserting `p`. */
  lemma InsertBelowIntoLeaf<T>(s: QuadTree<T>, p: Vec2, item: T, fuel: nat)
    requires RoomBelow(s, p)
    ensures Insert(s, p, item, fuel).Finished?
  {
    var d := s.children.value;
    InsertInternalFollowsFirst(s, p, item, fuel);
    InsertIntoLeafWithRoom(Child(d, FirstIndex(d, p)), p, item, fuel);
  }

  /** A full leaf whose subdivision `s` has room below `p` accepts `p`. */
  lemma RetryIntoRoomFinishes<T>(t: QuadTree<T>, p: Vec2, item: T, fuel: nat, s: QuadTree<T>)
    requires FullLeafAt(t, p) && fuel >= 1 && Subdivide(t, fuel - 1) == Finished(s)
    requires RoomBelow(s, p)
    ensures Insert(t, p, item, fuel).Finished? && Insert(t, p, item, fuel).value.accepted
  {
    InsertBelowIntoLeaf(s, p, item, fuel - 1);
    InsertFullLeafRetries(t, p, item, fuel, s);
  }

  /** The retry of `insert` after a subdivision finishes when some stored
      entry lies outside the first quadrant containing the new position: that
      child then receives fewer than `maxPoints` entries and stays a leaf with
      room. */
  lemma OverflowWithOutlierFinishes<T>(t: QuadTree<T>, p: Vec2, item: T, fuel: nat, e: Entry<T>)
    requires Valid(t) && IsLeaf(t) && |t.points.value| == t.maxPoints
    requires Contains(t.region, p) && fuel >= 1
    requires e in t.points.value && !Contains(FirstQuadrant(t.region, p), e.position)
    ensures Insert(t, p, item, fuel).Finished? && Insert(t, p, item, fuel).value.accepted
  {
    assert FullLeafAt(t, p);
    var s := SubdivideLeavesRoom(t, p, fuel - 1, e);
    RetryIntoRoomFinishes(t, p, item, fuel, s);
  }

  // ---------------------------------------------------------------------
  // The fuel bound never changes a finished answer

  lemma {:induction false} InsertFuelMonotone<T>(t: QuadTree<T>, p: Vec2, item: T, fuel: nat)
    requires Valid(t) && Insert(t, p, item, fuel).Finished?
    ensures Insert(t, p, item, fuel + 1) == Insert(t, p, item, fuel)
    decreases fuel, 0, t, 1
  {
    if Contains(t.region, p) {
      if t.points.Some? {
        if |t.points.value| == t.maxPoints {
          RetryFuelMonotone(t, p, item, fuel - 1);
        }
      } else {
        InternalFuelMonotone(t, p, item, fuel);
      }
    }
  }

  lemma {:induction false} RetryFuelMonotone<T>(t: QuadTree<T>, p: Vec2, item: T, fuel: nat)
    requires Valid(t) && t.points.Some? && Contains(t.region, p)
    requires SubdivideAndRetry(t, p, item, fuel).Finished?
    ensures SubdivideAndRetry(t, p, item, fuel + 1) == SubdivideAndRetry(t, p, item, fuel)
    decreases fuel, 4
  {
    SubdivideFuelMonotone(t, fuel);
    InsertFuelMonotone(Subdivide(t, fuel).value, p, item, fuel);
  }

  lemma {:induction false} InternalFuelMonotone<T>(t: QuadTree<T>, p: Vec2, item: T, fuel: nat)
    requires Valid(t) && IsInternal(t) && Contains(t.region, p)
    requires Insert(t, p, item, fuel).Finished?
    ensures Insert(t, p, item, fuel + 1) == Insert(t, p, item, fuel)
    decreases fuel, 0, t, 0
  {
    var c := t.children.value;
    assert ChildrenValid(c, t.region, t.maxPoints);
    InsertChildrenFuelMonotone(c, p, item, fuel);
  }

  lemma {:induction false} InsertChildrenFuelMonotone<T>(c: Children<T>, p: Vec2, item: T, fuel: nat)
    requires EachValid(c) && InsertChildren(c, p, item, fuel).Finished?
    ensures InsertChildren(c, p, item, fuel + 1) == InsertChildren(c, p, item, fuel)
    decreases fuel, 0, c
  {
    InsertFuelMonotone(c.northeast, p, item, fuel);
    if !Contains(c.northeast.region, p) {
      InsertFuelMonotone(c.northwest, p, item, fuel);
      if !Contains(c.northwest.region, p) {
        InsertFuelMonotone(c.southeast, p, item, fuel);
        if !Contains(c.southeast.region, p) {
          InsertFuelMonotone(c.southwest, p, item, fuel);
        }
      }
    }
  }

  lemma {:induction false} SubdivideFuelMonotone<T>(t: QuadTree<T>, fuel: nat)
    requires Valid(t) && t.points.Some? && Subdivide(t, fuel).Finished?
    ensures Subdivide(t, fuel + 1) == Subdivide(t, fuel)
    decreases fuel, 2
  {
    var c := EmptyQuadrants<T>(t.region, t.maxPoints);
    forall e | e in t.points.value
      ensures InChildren(c, e.position)
    {
      QuadrantsCover(t.region, e.position);
    }
    DistributeFuelMonotone(c, t.points.value, fuel);
  }

  lemma {:induction false} DistributeFuelMonotone<T>(c: Children<T>, es: seq<Entry<T>>, fuel: nat)
    requires EachValid(c) && (forall e :: e in es ==> InChildren(c, e.position))
    requires Distribute(c, es, fuel).Finished?
    ensures Distribute(c, es, fuel + 1) == Distribute(c, es, fuel)
    decreases fuel, 1, es
  {
    if |es| > 0 {
      InsertChildrenFuelMonotone(c, es[0].position, es[0].item, fuel);
      var placed := InsertChildren(c, es[0].position, es[0].item, fuel).value;
      FirstMatchEffect(c, placed.result, es[0]);
      forall e | e in es[1..]
        ensures InChildren(placed.result, e.position)
      {
        assert e in es;
      }
      DistributeFuelMonotone(placed.result, es[1..], fuel);
    }
  }

  /** Once an insertion finishes, any larger budget gives the same answer:
      the fuel only bounds the source's recursion, it never alters it. */
  lemma {:induction false} InsertFuelIrrelevant<T>(t: QuadTree<T>, p: Vec2, item: T, fuel: nat, more: nat)
    requires Valid(t) && Insert(t, p, item, fuel).Finished? && fuel <= more
    ensures Insert(t, p, item, more) == Insert(t, p, item, fuel)
    decreases more - fuel
  {
    if fuel < more {
      InsertFuelMonotone(t, p, item, fuel);
      InsertFuelIrrelevant(t, p, item, fuel + 1, more);
    }
  }

  // ---------------------------------------------------------------------
  // Queries

  /** Running the same query twice gives the same set, and a query only adds. */
  lemma QueryIdempotent<T>(t: QuadTree<T>, s: Shape, acc: set<T>)
    requires Valid(t)
    ensures acc <= Query(t, s, acc)
    ensures Query(t, s, Query(t, s, acc)) == Query(t, s, acc)
  {
  }

  /** After an accepted insertion, any query whose point test passes at the
      inserted position reports the inserted item. */
  lemma QueryFindsInserted<T>(t: QuadTree<T>, p: Vec2, item: T, fuel: nat, s: Shape, acc: set<T>)
    requires Valid(t) && Insert(t, p, item, fuel).Finished?
    requires Contains(t.region, p) && IntersectsPoint(s, p)
    ensures item in Query(Insert(t, p, item, fuel).value.result, s, acc)
  {
    var u := Insert(t, p, item, fuel).value.result;
    assert Entry(p, item) in Contents(u);
  }
}
