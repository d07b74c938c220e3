/** Positions, velocities and the axis-aligned regions owned by quadtree nodes.
    Coordinates are exact reals, so halving a region is exact. */
module Geometry {

  /** A 2D point or velocity (Bevy's `Vec2`). */
  datatype Vec2 = Vec2(x: real, y: real)

  /** Component-wise negation (`-v` on a `Vec2`). */
  function Neg(v: Vec2): (r: Vec2)
    ensures r.x + v.x == 0.0 && r.y + v.y == 0.0
  {
    Vec2(-v.x, -v.y)
  }

  /** A node's region: origin `(x, y)` and extent `(width, height)`. */
  datatype Rect = Rect(x: real, y: real, width: real, height: real)

  /** The inclusive bounds test of `QuadTree::insert`: all four edges belong to the region. */
  predicate Contains(r: Rect, p: Vec2)
  {
    r.x <= p.x <= r.x + r.width && r.y <= p.y <= r.y + r.height
  }

  /** Because the test is inclusive, a region of non-negative extent contains
      all four of its corners, and one of negative extent contains nothing. */
  lemma CornersIncluded(r: Rect, p: Vec2)
    ensures Contains(r, p) ==> 0.0 <= r.width && 0.0 <= r.height
    ensures 0.0 <= r.width && 0.0 <= r.height
            && (p.x == r.x || p.x == r.x + r.width) && (p.y == r.y || p.y == r.y + r.height)
            ==> Contains(r, p)
  {
  }

  // The four half-size quadrants `subdivide` creates. Each has one corner at
  // the parent's centre and the opposite corner at one of the parent's
  // corners; north is the side of smaller `y`.

  /** The quadrant at the parent's corner `(x, y)`. */
  function NorthWest(r: Rect): (q: Rect)
    ensures q.x == r.x && q.y == r.y
    ensures q.x + q.width == r.x + r.width / 2.0 && q.y + q.height == r.y + r.height / 2.0
  {
    Rect(r.x, r.y, r.width / 2.0, r.height / 2.0)
  }

  /** The quadrant at the parent's corner `(x + width, y)`. */
  function NorthEast(r: Rect): (q: Rect)
    ensures q.x + q.width == r.x + r.width && q.y == r.y
    ensures q.x == r.x + r.width / 2.0 && q.y + q.height == r.y + r.height / 2.0
  {
    Rect(r.x + r.width / 2.0, r.y, r.width / 2.0, r.height / 2.0)
  }

  /** The quadrant at the parent's corner `(x, y + height)`. */
  function SouthWest(r: Rect): (q: Rect)
    ensures q.x == r.x && q.y + q.height == r.y + r.height
    ensures q.x + q.width == r.x + r.width / 2.0 && q.y == r.y + r.height / 2.0
  {
    Rect(r.x, r.y + r.height / 2.0, r.width / 2.0, r.height / 2.0)
  }

  /** The quadrant at the parent's corner `(x + width, y + height)`. */
  function SouthEast(r: Rect): (q: Rect)
    ensures q.x + q.width == r.x + r.width && q.y + q.height == r.y + r.height
    ensures q.x == r.x + r.width / 2.0 && q.y == r.y + r.height / 2.0
  {
    Rect(r.x + r.width / 2.0, r.y + r.height / 2.0, r.width / 2.0, r.height / 2.0)
  }

  predicate InSomeQuadrant(r: Rect, p: Vec2)
  {
    Contains(NorthEast(r), p) || Contains(NorthWest(r), p)
    || Contains(SouthEast(r), p) || Contains(SouthWest(r), p)
  }

  /** The four quadrants cover the region and stay inside it: a point lies in
      the region exactly when it lies in one of its quadrants. This holds for
      every extent, including negative ones, where both sides are empty. */
  lemma QuadrantsCover(r: Rect, p: Vec2)
    ensures Contains(r, p) <==> InSomeQuadrant(r, p)
  {
  }

  /** The first quadrant containing `p` in the order NE, NW, SE, SW, the
      order in which a node's children are tried. */
  function FirstQuadrant(r: Rect, p: Vec2): (q: Rect)
    requires Contains(r, p)
    ensures Contains(q, p)
    ensures q == NorthEast(r) || q == NorthWest(r) || q == SouthEast(r) || q == SouthWest(r)
  {
    QuadrantsCover(r, p);
    if Contains(NorthEast(r), p) then NorthEast(r)
    else if Contains(NorthWest(r), p) then NorthWest(r)
    else if Contains(SouthEast(r), p) then SouthEast(r)
    else SouthWest(r)
  }

  /** Each quadrant has half the extent of its parent, and together they
      tile it: the two columns and the two rows meet exactly at the midlines. */
  lemma QuadrantsTile(r: Rect)
    ensures NorthWest(r).x + NorthWest(r).width == NorthEast(r).x
    ensures NorthEast(r).x + NorthEast(r).width == r.x + r.width
    ensures NorthWest(r).y + NorthWest(r).height == SouthWest(r).y
    ensures SouthWest(r).y + SouthWest(r).height == r.y + r.height
    ensures NorthEast(r).width + NorthWest(r).width == r.width
    ensures NorthWest(r).height + SouthWest(r).height == r.height
  {
  }
}
