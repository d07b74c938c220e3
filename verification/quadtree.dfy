/** The point quadtree: construction, subdivision, insertion and query.

    A node mirrors the Rust struct: a region, a capacity `maxPoints`, an
    optional point list (leaf) and an optional block of four children
    (internal). `Valid` is the invariant every reachable tree keeps; in
    particular exactly one of the two options is present.

    Insertion into a full leaf subdivides and retries, which the source does
    without bound: with `maxPoints == 0`, or with more than `maxPoints`
    entries at one position, it never returns. The model threads a `fuel`
    budget that drops by one per subdivision and answers `OutOfFuel` when it
    is exhausted; a `Finished` answer is what the source computes. */
module Quadtree {
  import opened Outcomes
  import opened Geometry
  import opened Shapes

  /** A stored `(position, item)` pair. */
  datatype Entry<T> = Entry(position: Vec2, item: T)

  datatype QuadTree<T> = QuadTree(
    region: Rect,
    maxPoints: nat,
    points: Option<seq<Entry<T>>>,
    children: Option<Children<T>>)

  /** `QuadTreeChildren`: the four owned quadrants, in the source's field order. */
  datatype Children<T> = Children(
    northeast: QuadTree<T>,
    northwest: QuadTree<T>,
    southeast: QuadTree<T>,
    southwest: QuadTree<T>)

  // ---------------------------------------------------------------------
  // Invariant and abstraction

  /** The representation invariant: leaf xor internal; a leaf holds at most
      `maxPoints` entries, all inside its region; an internal node's children
      are its four quadrants with the same capacity, each valid. */
  ghost predicate Valid<T>(t: QuadTree<T>)
    decreases t, 1
  {
    && (t.points.Some? <==> t.children.None?)
    && (t.points.Some? ==>
          && |t.points.value| <= t.maxPoints
          && forall e :: e in t.points.value ==> Contains(t.region, e.position))
    && (t.children.Some? ==> ChildrenValid(t.children.value, t.region, t.maxPoints))
  }

  ghost predicate ChildrenValid<T>(c: Children<T>, region: Rect, maxPoints: nat)
    decreases c, 1
  {
    && c.northeast.region == NorthEast(region)
    && c.northwest.region == NorthWest(region)
    && c.southeast.region == SouthEast(region)
    && c.southwest.region == SouthWest(region)
    && c.northeast.maxPoints == maxPoints
    && c.northwest.maxPoints == maxPoints
    && c.southeast.maxPoints == maxPoints
    && c.southwest.maxPoints == maxPoints
    && EachValid(c)
  }

  ghost predicate EachValid<T>(c: Children<T>)
    decreases c, 0
  {
    Valid(c.northeast) && Valid(c.northwest) && Valid(c.southeast) && Valid(c.southwest)
  }

  /** The multiset of entries stored anywhere in the subtree. */
  ghost function Contents<T>(t: QuadTree<T>): multiset<Entry<T>>
    decreases t, 1
  {
    if t.points.Some? then multiset(t.points.value)
    else if t.children.Some? then ChildContents(t.children.value)
    else multiset{}
  }

  ghost function ChildContents<T>(c: Children<T>): multiset<Entry<T>>
    decreases c, 0
  {
    Contents(c.northeast) + Contents(c.northwest)
    + Contents(c.southeast) + Contents(c.southwest)
  }

  predicate IsLeaf<T>(t: QuadTree<T>)
  {
    t.points.Some? && t.children.None?
  }

  predicate IsInternal<T>(t: QuadTree<T>)
  {
    t.points.None? && t.children.Some?
  }

  /** Same region and capacity: the parts of a node fixed at construction. */
  predicate SameFrame<T>(t: QuadTree<T>, u: QuadTree<T>)
  {
    t.region == u.region && t.maxPoints == u.maxPoints
  }

  predicate SameFrames<T>(c: Children<T>, d: Children<T>)
  {
    && SameFrame(c.northeast, d.northeast) && SameFrame(c.northwest, d.northwest)
    && SameFrame(c.southeast, d.southeast) && SameFrame(c.southwest, d.southwest)
  }

  /** The insertion test of `QuadTreeChildren::insert`: some child accepts. */
  predicate InChildren<T>(c: Children<T>, p: Vec2)
  {
    Contains(c.northeast.region, p) || Contains(c.northwest.region, p)
    || Contains(c.southeast.region, p) || Contains(c.southwest.region, p)
  }

  /** `u` is `t` with one more entry `e`, still valid, frame unchanged. */
  ghost predicate Grows<T>(t: QuadTree<T>, u: QuadTree<T>, e: Entry<T>)
  {
    Valid(u) && SameFrame(t, u) && Contents(u) == Contents(t) + multiset{e}
  }

  /** First match wins: the first child in NE, NW, SE, SW order whose region
      contains the position receives the entry and the others are untouched;
      if none contains it nothing changes. */
  ghost predicate FirstMatch<T>(c: Children<T>, d: Children<T>, e: Entry<T>)
  {
    if Contains(c.northeast.region, e.position) then
      Grows(c.northeast, d.northeast, e)
      && d.northwest == c.northwest && d.southeast == c.southeast && d.southwest == c.southwest
    else if Contains(c.northwest.region, e.position) then
      d.northeast == c.northeast && Grows(c.northwest, d.northwest, e)
      && d.southeast == c.southeast && d.southwest == c.southwest
    else if Contains(c.southeast.region, e.position) then
      d.northeast == c.northeast && d.northwest == c.northwest
      && Grows(c.southeast, d.southeast, e) && d.southwest == c.southwest
    else if Contains(c.southwest.region, e.position) then
      d.northeast == c.northeast && d.northwest == c.northwest
      && d.southeast == c.southeast && Grows(c.southwest, d.southwest, e)
    else d == c
  }

  /** What `FirstMatch` means for the block as a whole: frames and validity
      are kept, and the entry is added exactly when some child contains it. */
  lemma FirstMatchEffect<T>(c: Children<T>, d: Children<T>, e: Entry<T>)
    requires EachValid(c) && FirstMatch(c, d, e)
    ensures EachValid(d) && SameFrames(c, d)
    ensures ChildContents(d)
            == ChildContents(c) + (if InChildren(c, e.position) then multiset{e} else multiset{})
  {
  }

  /** Every entry stored under a valid node lies inside that node's region. */
  lemma {:induction false} ContentsInside<T>(t: QuadTree<T>, e: Entry<T>)
    requires Valid(t) && e in Contents(t)
    ensures Contains(t.region, e.position)
    decreases t
  {
    if t.children.Some? {
      var c := t.children.value;
      assert ChildrenValid(c, t.region, t.maxPoints);
      assert EachValid(c);
      if e in Contents(c.northeast) {
        ContentsInside(c.northeast, e);
      } else if e in Contents(c.northwest) {
        ContentsInside(c.northwest, e);
      } else if e in Contents(c.southeast) {
        ContentsInside(c.southeast, e);
      } else {
        ContentsInside(c.southwest, e);
      }
      QuadrantsCover(t.region, e.position);
    }
  }

  // ---------------------------------------------------------------------
  // Operations

  /** `QuadTree::new`: an empty leaf over `region`. */
  function New<T>(region: Rect, maxPoints: nat): (t: QuadTree<T>)
    ensures Valid(t) && IsLeaf(t)
    ensures t.region == region && t.maxPoints == maxPoints
    ensures Contents(t) == multiset{}
  {
    QuadTree(region, maxPoints, Some([]), None)
  }

  /** `QuadTree::insert`. Returns whether the position passed the inclusive
      bounds test; an accepted entry is stored somewhere in the subtree. A
      node changes from leaf to internal only when it is a full leaf that
      accepts, and an internal node never becomes a leaf again. */
  function Insert<T>(t: QuadTree<T>, p: Vec2, item: T, fuel: nat): (r: Fueled<Placed<QuadTree<T>>>)
    requires Valid(t)
    ensures r.Finished? ==> r.value.accepted == Contains(t.region, p)
    ensures r.Finished? && r.value.accepted ==> Grows(t, r.value.result, Entry(p, item))
    ensures r.Finished? && !r.value.accepted ==> r.value.result == t
    ensures r.Finished? ==>
      (IsInternal(r.value.result)
       <==> IsInternal(t) || (IsLeaf(t) && |t.points.value| == t.maxPoints && Contains(t.region, p)))
    decreases fuel, 0, t, 1
  {
    if !Contains(t.region, p) then
      Finished(Placed(false, t))
    else if t.points.Some? then
      if |t.points.value| == t.maxPoints then
        // A full leaf subdivides, then the insertion is retried on the node.
        if fuel == 0 then OutOfFuel
        else SubdivideAndRetry(t, p, item, fuel - 1)
      else
        Finished(Placed(true, t.(points := Some(t.points.value + [Entry(p, item)]))))
    else
      var c := t.children.value;
      assert ChildrenValid(c, t.region, t.maxPoints);
      QuadrantsCover(t.region, p);
      match InsertChildren(c, p, item, fuel)
      case OutOfFuel => OutOfFuel
      case Finished(placed) =>
        FirstMatchEffect(c, placed.result, Entry(p, item));
        Finished(Placed(true, t.(children := Some(placed.result))))
  }

  /** The retry of `QuadTree::insert` on a full leaf: subdivide, then insert
      into the subdivided node, which stays internal from then on. */
  function SubdivideAndRetry<T>(t: QuadTree<T>, p: Vec2, item: T, fuel: nat): (r: Fueled<Placed<QuadTree<T>>>)
    requires Valid(t) && t.points.Some? && Contains(t.region, p)
    ensures r.Finished? ==> r.value.accepted && Grows(t, r.value.result, Entry(p, item))
    ensures r.Finished? ==> IsInternal(r.value.result)
    decreases fuel, 3
  {
    match Subdivide(t, fuel)
    case OutOfFuel => OutOfFuel
    case Finished(s) =>
      match Insert(s, p, item, fuel)
      case OutOfFuel => OutOfFuel
      case Finished(retried) => Finished(Placed(true, retried.result))
  }

  /** `QuadTreeChildren::insert`: try NE, NW, SE, SW and stop at the first
      child that accepts. */
  function InsertChildren<T>(c: Children<T>, p: Vec2, item: T, fuel: nat): (r: Fueled<Placed<Children<T>>>)
    requires EachValid(c)
    ensures r.Finished? ==> r.value.accepted == InChildren(c, p)
    ensures r.Finished? ==> FirstMatch(c, r.value.result, Entry(p, item))
    decreases fuel, 0, c
  {
    match Insert(c.northeast, p, item, fuel)
    case OutOfFuel => OutOfFuel
    case Finished(ne) =>
      if ne.accepted then Finished(Placed(true, c.(northeast := ne.result)))
      else
        match Insert(c.northwest, p, item, fuel)
        case OutOfFuel => OutOfFuel
        case Finished(nw) =>
          if nw.accepted then Finished(Placed(true, c.(northwest := nw.result)))
          else
            match Insert(c.southeast, p, item, fuel)
            case OutOfFuel => OutOfFuel
            case Finished(se) =>
              if se.accepted then Finished(Placed(true, c.(southeast := se.result)))
              else
                match Insert(c.southwest, p, item, fuel)
                case OutOfFuel => OutOfFuel
                case Finished(sw) =>
                  if sw.accepted then Finished(Placed(true, c.(southwest := sw.result)))
                  else Finished(Placed(false, c))
  }

  /** The four empty quadrant leaves `subdivide` creates. */
  function EmptyQuadrants<T>(region: Rect, maxPoints: nat): (c: Children<T>)
    ensures ChildrenValid(c, region, maxPoints)
    ensures ChildContents(c) == multiset{}
  {
    Children(
      New(NorthEast(region), maxPoints),
      New(NorthWest(region), maxPoints),
      New(SouthEast(region), maxPoints),
      New(SouthWest(region), maxPoints))
  }

  /** `QuadTree::subdivide`: create the four quadrants, re-insert every
      entry of the leaf into them, drop the leaf's list. */
  function Subdivide<T>(t: QuadTree<T>, fuel: nat): (r: Fueled<QuadTree<T>>)
    requires Valid(t) && t.points.Some?
    ensures r.Finished? ==> Valid(r.value) && IsInternal(r.value) && SameFrame(t, r.value)
    ensures r.Finished? ==> Contents(r.value) == Contents(t)
    decreases fuel, 2
  {
    var c := EmptyQuadrants(t.region, t.maxPoints);
    assert forall e :: e in t.points.value ==> InChildren(c, e.position) by {
      forall e | e in t.points.value
        ensures InChildren(c, e.position)
      {
        QuadrantsCover(t.region, e.position);
      }
    }
    match Distribute(c, t.points.value, fuel)
    case OutOfFuel => OutOfFuel
    case Finished(d) => Finished(t.(points := None, children := Some(d)))
  }

  /** The loop of `subdivide` that hands each entry, in order, to the children. */
  function Distribute<T>(c: Children<T>, es: seq<Entry<T>>, fuel: nat): (r: Fueled<Children<T>>)
    requires EachValid(c)
    requires forall e :: e in es ==> InChildren(c, e.position)
    ensures r.Finished? ==> EachValid(r.value) && SameFrames(c, r.value)
    ensures r.Finished? ==> ChildContents(r.value) == ChildContents(c) + multiset(es)
    decreases fuel, 1, es
  {
    if |es| == 0 then Finished(c)
    else
      match InsertChildren(c, es[0].position, es[0].item, fuel)
      case OutOfFuel => OutOfFuel
      case Finished(placed) =>
        FirstMatchEffect(c, placed.result, es[0]);
        assert es == [es[0]] + es[1..];
        assert forall e :: e in es[1..] ==> InChildren(placed.result, e.position) by {
          forall e | e in es[1..]
            ensures InChildren(placed.result, e.position)
          {
            assert e in es;
            assert InChildren(c, e.position);
            assert SameFrames(c, placed.result);
            assert c.northeast.region == placed.result.northeast.region;
          }
        }
        Distribute(placed.result, es[1..], fuel)
  }

  // ---------------------------------------------------------------------
  // Query

  /** The items of the entries in `m` whose position passes the point test. */
  ghost function MatchingIn<T>(m: multiset<Entry<T>>, s: Shape): set<T>
  {
    set e | e in m && IntersectsPoint(s, e.position) :: e.item
  }

  lemma MatchingInUnion<T>(a: multiset<Entry<T>>, b: multiset<Entry<T>>, s: Shape)
    ensures MatchingIn(a + b, s) == MatchingIn(a, s) + MatchingIn(b, s)
  {
    forall x | x in MatchingIn(a + b, s)
      ensures x in MatchingIn(a, s) + MatchingIn(b, s)
    {
      var e :| e in a + b && IntersectsPoint(s, e.position) && e.item == x;
      if e in a {
        assert x in MatchingIn(a, s);
      } else {
        assert x in MatchingIn(b, s);
      }
    }
  }

  /** The loop over a leaf's entries in `query`. */
  function QueryLeaf<T>(es: seq<Entry<T>>, s: Shape, acc: set<T>): (r: set<T>)
    ensures r == acc + MatchingIn(multiset(es), s)
    decreases es
  {
    if |es| == 0 then acc
    else
      assert es == [es[0]] + es[1..];
      MatchingInUnion(multiset{es[0]}, multiset(es[1..]), s);
      assert MatchingIn(multiset{es[0]}, s)
             == (if IntersectsPoint(s, es[0].position) then {es[0].item} else {});
      QueryLeaf(es[1..], s, if IntersectsPoint(s, es[0].position) then acc + {es[0].item} else acc)
  }

  /** A region that fails the rectangle test holds no matching entry. */
  lemma PrunedHoldsNoMatch<T>(t: QuadTree<T>, s: Shape)
    requires Valid(t) && !IntersectsRectangle(s, t.region)
    ensures MatchingIn(Contents(t), s) == {}
  {
    forall e | e in Contents(t) && IntersectsPoint(s, e.position)
      ensures false
    {
      ContentsInside(t, e);
      PruneSound(s, t.region, e.position);
    }
  }

  lemma MatchingInChildren<T>(c: Children<T>, s: Shape)
    ensures MatchingIn(ChildContents(c), s)
            == MatchingIn(Contents(c.northwest), s) + MatchingIn(Contents(c.northeast), s)
               + MatchingIn(Contents(c.southwest), s) + MatchingIn(Contents(c.southeast), s)
  {
    MatchingInUnion(Contents(c.northeast) + Contents(c.northwest) + Contents(c.southeast), Contents(c.southwest), s);
    MatchingInUnion(Contents(c.northeast) + Contents(c.northwest), Contents(c.southeast), s);
    MatchingInUnion(Contents(c.northeast), Contents(c.northwest), s);
  }

  /** `QuadTree::query`: adds to `acc` the item of every stored entry whose
      position passes the shape's point test, and nothing else. Subtrees whose
      region fails the rectangle test are skipped; that loses nothing. */
  function Query<T>(t: QuadTree<T>, s: Shape, acc: set<T>): (r: set<T>)
    requires Valid(t)
    ensures r == acc + MatchingIn(Contents(t), s)
    decreases t
  {
    if !IntersectsRectangle(s, t.region) then
      PrunedHoldsNoMatch(t, s);
      acc
    else
      match t.children
      case Some(c) =>
        assert ChildrenValid(c, t.region, t.maxPoints);
        assert EachValid(c);
        MatchingInChildren(c, s);
        var a1 := Query(c.northwest, s, acc);
        var a2 := Query(c.northeast, s, a1);
        var a3 := Query(c.southwest, s, a2);
        Query(c.southeast, s, a3)
      case None =>
        QueryLeaf(t.points.value, s, acc)
  }
}
