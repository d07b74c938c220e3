/** The query shapes of the quadtree (the `Queryable` interface). The one
    shape the program uses is `Circle`; both of its tests compare squared
    distances with `<=`, so the circle's rim belongs to it. */
module Shapes {
  import opened Geometry

  /** A query shape. `Circle(x, y, r)` is centre `(x, y)`, radius `r`. */
  datatype Shape = Circle(x: real, y: real, r: real)

  /** `f32::max` on ordinary values: the larger argument. */
  function Max(a: real, b: real): (m: real)
    ensures a <= m && b <= m && (m == a || m == b)
  {
    if a >= b then a else b
  }

  /** `f32::min` on ordinary values: the smaller argument. */
  function Min(a: real, b: real): (m: real)
    ensures m <= a && m <= b && (m == a || m == b)
  {
    if a <= b then a else b
  }

  /** The coordinate of the region nearest to `v` on one axis:
      `v.max(lo).min(hi)` in the source. For an empty interval (`lo > hi`,
      a negative extent) the upper bound wins. */
  function Clamp(v: real, lo: real, hi: real): (c: real)
    ensures lo <= hi ==> lo <= c <= hi
    ensures lo <= v <= hi ==> c == v
    ensures hi < lo ==> c == hi
  {
    Min(Max(v, lo), hi)
  }

  /** Rectangle test used to prune subtrees: the squared distance from the
      centre to its clamp onto the region is at most `r * r`. A circle whose
      centre lies in the region always passes, since clamping leaves the
      centre where it is. */
  predicate IntersectsRectangle(s: Shape, region: Rect)
    ensures Contains(region, Vec2(s.x, s.y)) ==> IntersectsRectangle(s, region)
  {
    var cx := Clamp(s.x, region.x, region.x + region.width);
    var cy := Clamp(s.y, region.y, region.y + region.height);
    var dx := s.x - cx;
    var dy := s.y - cy;
    dy * dy + dx * dx <= s.r * s.r
  }

  /** Point test applied to stored entries: squared distance at most `r * r`.
      It is the rectangle test on the zero-size region at the point. */
  predicate IntersectsPoint(s: Shape, p: Vec2)
    ensures IntersectsPoint(s, p) <==> IntersectsRectangle(s, Rect(p.x, p.y, 0.0, 0.0))
  {
    var dx := s.x - p.x;
    var dy := s.y - p.y;
    dy * dy + dx * dx <= s.r * s.r
  }

  lemma SquareMonotone(a: real, b: real)
    requires 0.0 <= a <= b
    ensures a * a <= b * b
  {
    assert a * a <= a * b;
    assert a * b <= b * b;
  }

  /** Clamping onto `[lo, hi]` never moves further from `c` than any point of
      the interval, so its squared offset is the smallest. */
  lemma ClampIsNearest(c: real, lo: real, hi: real, v: real)
    requires lo <= v <= hi
    ensures (c - Clamp(c, lo, hi)) * (c - Clamp(c, lo, hi)) <= (c - v) * (c - v)
  {
    var k := Clamp(c, lo, hi);
    if c < lo {
      assert k == lo;
      SquareMonotone(lo - c, v - c);
    } else if c > hi {
      assert k == hi;
      SquareMonotone(c - hi, c - v);
    } else {
      assert k == c;
      SquareMonotone(0.0, if c >= v then c - v else v - c);
    }
  }

  /** Pruning is sound: if some point of the region passes the point test,
      the region passes the rectangle test, so `query` never skips a subtree
      that could hold a match. */
  lemma PruneSound(s: Shape, region: Rect, p: Vec2)
    requires Contains(region, p) && IntersectsPoint(s, p)
    ensures IntersectsRectangle(s, region)
  {
    ClampIsNearest(s.x, region.x, region.x + region.width, p.x);
    ClampIsNearest(s.y, region.y, region.y + region.height, p.y);
  }

  /** For a region with non-negative extent, the rectangle test holds exactly
      when some point of the region passes the point test. With `<=` on both
      sides this makes a region at distance exactly `r` intersect, and one
      any further away not. */
  lemma RectangleTestExact(s: Shape, region: Rect)
    requires region.width >= 0.0 && region.height >= 0.0
    ensures IntersectsRectangle(s, region)
            <==> exists p :: Contains(region, p) && IntersectsPoint(s, p)
  {
    if IntersectsRectangle(s, region) {
      var q := Vec2(Clamp(s.x, region.x, region.x + region.width),
                    Clamp(s.y, region.y, region.y + region.height));
      assert Contains(region, q) && IntersectsPoint(s, q);
    }
    forall p | Contains(region, p) && IntersectsPoint(s, p)
      ensures IntersectsRectangle(s, region)
    {
      PruneSound(s, region, p);
    }
  }
}
