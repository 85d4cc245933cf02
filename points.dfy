/** Hit-testing of control points (`ps_at`): which stored point, if any, has
    its marker square under a mouse position. */
module ControlPoints {
  import opened Vectors
  import opened Colors
  import opened Render

  /** The box test of `ps_at`: `pos` lies in the closed `MarkerSize` square
      centred on `q`, i.e. within five units of `q` on both axes. */
  function HitBox(q: Vec2, pos: Vec2): (hit: bool)
    ensures hit <==> q.x - 5.0 <= pos.x <= q.x + 5.0 && q.y - 5.0 <= pos.y <= q.y + 5.0
  {
    var size := Vec2(MarkerSize, MarkerSize);
    var begin := Sub(q, Scale(size, 0.5));
    var end := Add(begin, size);
    begin.x <= pos.x && pos.x <= end.x && begin.y <= pos.y && pos.y <= end.y
  }

  /** The box `ps_at` tests is exactly the square `render_marker` fills. */
  lemma HitBoxIsMarker(q: Vec2, pos: Vec2, color: Color)
    ensures var m := RenderMarker(q, color);
            HitBox(q, pos) <==> RectContains(m.origin, m.size, pos)
  {
    MarkerCovers(q, pos, color);
  }

  /** The first index (in store order, not the nearest point) whose box holds
      `pos`, or -1 when no box does. */
  function FirstHit(pts: seq<Vec2>, pos: Vec2): (r: int)
    ensures -1 <= r < |pts|
    ensures r >= 0 ==> HitBox(pts[r], pos)
    ensures forall j :: 0 <= j < |pts| && (r == -1 || j < r) ==> !HitBox(pts[j], pos)
    decreases |pts|
  {
    if |pts| == 0 then -1
    else if HitBox(pts[0], pos) then 0
    else
      var k := FirstHit(pts[1..], pos);
      if k == -1 then -1 else k + 1
  }

  /** Every stored point is found by the hit test at its own position, at its
      own index or at an earlier one whose box also holds it. */
  lemma StoredPointIsHit(pts: seq<Vec2>, k: nat)
    requires k < |pts|
    ensures 0 <= FirstHit(pts, pts[k]) <= k
  {
    assert HitBox(pts[k], pts[k]);
  }

  /** Points added after the first hit do not change the answer. */
  lemma {:induction false} FirstHitExtend(pts: seq<Vec2>, q: Vec2, pos: Vec2)
    ensures FirstHit(pts + [q], pos)
         == if FirstHit(pts, pos) >= 0 then FirstHit(pts, pos)
            else if HitBox(q, pos) then |pts| else -1
    decreases |pts|
  {
    if |pts| > 0 && !HitBox(pts[0], pos) {
      assert (pts + [q])[1..] == pts[1..] + [q];
      FirstHitExtend(pts[1..], q, pos);
    }
  }
}
