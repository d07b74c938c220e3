/** The position update of `point_movement_system`: move each entity by its
    velocity and wrap a coordinate that leaves the window to the opposite
    edge. `halfWidth` and `halfHeight` are half the window's size. */
module Movement {
  import opened Geometry
  import opened Collision

  /** One axis: add the velocity; past the upper edge jump to the lower
      edge, past the lower edge jump to the upper edge. */
  function Wrap(c: real, v: real, half: real): (r: real)
    ensures half >= 0.0 ==> -half <= r <= half
    ensures half >= 0.0 ==> (r == c + v <==> -half <= c + v <= half)
    ensures c + v > half ==> r == -half
    ensures half >= 0.0 && c + v < -half ==> r == half
  {
    var moved := c + v;
    if moved > half then -half
    else if moved < -half then half
    else moved
  }

  /** Both axes, x first, then y. */
  function Move(p: Vec2, v: Vec2, halfWidth: real, halfHeight: real): (r: Vec2)
    requires halfWidth >= 0.0 && halfHeight >= 0.0
    ensures Contains(Window(2.0 * halfWidth, 2.0 * halfHeight), r)
    ensures Contains(Window(2.0 * halfWidth, 2.0 * halfHeight), Vec2(p.x + v.x, p.y + v.y))
            ==> r == Vec2(p.x + v.x, p.y + v.y)
  {
    Vec2(Wrap(p.x, v.x, halfWidth), Wrap(p.y, v.y, halfHeight))
  }

  /** The loop over all entities: each listed entity is moved once from its
      old position by its own velocity. */
  function MoveAll<E>(entities: seq<E>, pos: map<E, Vec2>, vel: map<E, Vec2>, halfWidth: real, halfHeight: real): (r: map<E, Vec2>)
    requires halfWidth >= 0.0 && halfHeight >= 0.0
    requires Positioned(entities, pos) && Positioned(entities, vel) && Distinct(entities)
    ensures r.Keys == pos.Keys
    ensures forall i :: 0 <= i < |entities| ==>
      r[entities[i]] == Move(pos[entities[i]], vel[entities[i]], halfWidth, halfHeight)
    ensures forall i :: 0 <= i < |entities| ==> Contains(Window(2.0 * halfWidth, 2.0 * halfHeight), r[entities[i]])
    ensures forall k :: k in pos && k !in entities ==> r[k] == pos[k]
    decreases entities
  {
    if |entities| == 0 then pos
    else
      var e := entities[0];
      var rest := MoveAll(entities[1..], pos, vel, halfWidth, halfHeight);
      assert forall i :: 1 <= i < |entities| ==> entities[i] == entities[1..][i - 1];
      assert e !in entities[1..] by {
        forall i | 0 <= i < |entities[1..]|
          ensures entities[1..][i] != e
        {
          assert entities[1..][i] == entities[i + 1];
        }
      }
      rest[e := Move(rest[e], vel[e], halfWidth, halfHeight)]
  }

  /** If the collision step sees the positions the movement step produced,
      over the same window, every entity lies in the region its tree covers,
      so that tree stores every entity. The program declares no order among
      its systems, and `window_moved_system` shifts points without wrapping,
      so this holds only when no other system moves a point or resizes the
      window between the two steps. */
  lemma MovedEntitiesAreAllInserted<E>(entities: seq<E>, pos: map<E, Vec2>, vel: map<E, Vec2>, width: real, height: real)
    requires width >= 0.0 && height >= 0.0
    requires Positioned(entities, pos) && Positioned(entities, vel) && Distinct(entities)
    ensures var moved := MoveAll(entities, pos, vel, width / 2.0, height / 2.0);
      forall i :: 0 <= i < |entities| ==>
        Quadtree.Entry(moved[entities[i]], entities[i]) in InRegion(entities, moved, Window(width, height))
  {
    var moved := MoveAll(entities, pos, vel, width / 2.0, height / 2.0);
    assert Window(2.0 * (width / 2.0), 2.0 * (height / 2.0)) == Window(width, height);
    forall i | 0 <= i < |entities|
      ensures Quadtree.Entry(moved[entities[i]], entities[i]) in InRegion(entities, moved, Window(width, height))
    {
      InRegionMembers(entities, moved, Window(width, height), Quadtree.Entry(moved[entities[i]], entities[i]));
    }
  }
}
