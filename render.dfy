/** What the editor draws, as abstract draw commands: `render_line`,
    `render_marker` (a filled square centred on a point), the loop of
    `render_bezier_markers` and the per-frame draw list. The renderer calls
    behind `render_line` and `fill_rect` are not modelled; a command stands
    for one such call. */
module Render {
  import opened Vectors
  import opened Colors
  import opened Bezier

  /** Side of the square drawn for a marker (`MARKER_SIZE`). */
  const MarkerSize: real := 10.0

  /** Parameter step the frame passes to `render_bezier_markers`. */
  const CurveStep: real := 0.01

  /** One call of `render_line` or of `fill_rect`. */
  datatype DrawCmd =
    | Line(begin: Vec2, end: Vec2, color: Color)
    | FillRect(origin: Vec2, size: Vec2, color: Color)

  /** Closed containment in the axis-aligned rectangle at `origin` of extent `size`. */
  predicate RectContains(origin: Vec2, size: Vec2, q: Vec2)
  {
    origin.x <= q.x <= origin.x + size.x && origin.y <= q.y <= origin.y + size.y
  }

  /** `render_marker`: a `MarkerSize` square whose centre is `pos`. */
  function RenderMarker(pos: Vec2, color: Color): (r: DrawCmd)
    ensures r.FillRect? && r.color == color
    ensures r.size == Vec2(MarkerSize, MarkerSize)
    ensures Add(r.origin, Scale(r.size, 0.5)) == pos
  {
    var size := Vec2(MarkerSize, MarkerSize);
    FillRect(Sub(pos, Scale(size, 0.5)), size, color)
  }

  /** A point lies in the marker drawn at `q` exactly when it is within half a
      marker of `q` along both axes, bounds included. */
  lemma MarkerCovers(q: Vec2, pos: Vec2, color: Color)
    ensures var m := RenderMarker(q, color);
            RectContains(m.origin, m.size, pos)
            <==> q.x - 5.0 <= pos.x <= q.x + 5.0 && q.y - 5.0 <= pos.y <= q.y + 5.0
  {
  }

  // ---------------------------------------------------------------------
  // render_bezier_markers

  /** Number of passes of `for (p = 0; p <= 1; p += s)` in exact arithmetic:
      the parameters 0, s, 2s, ... that do not exceed one. */
  function SampleCount(s: real): nat
    requires s > 0.0
  {
    (1.0 / s).Floor + 1
  }

  /** The parameter of the `k`-th pass: `k` steps of `s` from zero. */
  function SampleParam(s: real, k: nat): real
  {
    k as real * s
  }

  /** One more pass advances the parameter by exactly one step. */
  lemma SampleParamNext(s: real, k: nat)
    ensures SampleParam(s, k + 1) == SampleParam(s, k) + s
  {
    assert (k + 1) as real * s == k as real * s + 1.0 * s;
  }

  /** Sample `k` is taken exactly when `k * s <= 1`. */
  lemma SampleCountBound(s: real, k: nat)
    requires s > 0.0
    ensures k < SampleCount(s) <==> SampleParam(s, k) <= 1.0
  {
    var f := (1.0 / s).Floor;
    assert f as real <= 1.0 / s < f as real + 1.0;
    assert (1.0 / s) * s == 1.0;
    if k < SampleCount(s) {
      assert k as real <= f as real;
      assert k as real * s <= f as real * s;
    } else {
      assert k as real >= f as real + 1.0;
      assert k as real * s >= (f as real + 1.0) * s;
      assert (f as real + 1.0) * s > (1.0 / s) * s;
    }
  }

  /** The markers `render_bezier_markers` draws: one at the curve point for
      each parameter 0, s, 2s, ... up to and including the last one not
      above one. */
  function BezierMarkers(a: Vec2, b: Vec2, c: Vec2, d: Vec2, s: real, color: Color): (r: seq<DrawCmd>)
    requires s > 0.0
    ensures |r| == SampleCount(s) >= 1
    ensures r[0] == RenderMarker(a, color)
    ensures forall k :: 0 <= k < |r| ==> r[k].FillRect? && r[k].color == color
  {
    seq(SampleCount(s), k requires 0 <= k < SampleCount(s) =>
      RenderMarker(Cubic(a, b, c, d, SampleParam(s, k)), color))
  }

  /** `render_bezier_markers`: the parameter loop, accumulating `p += s`. */
  method RenderBezierMarkers(a: Vec2, b: Vec2, c: Vec2, d: Vec2, s: real, color: Color)
    returns (cmds: seq<DrawCmd>)
    requires s > 0.0
    ensures cmds == BezierMarkers(a, b, c, d, s, color)
  {
    cmds := [];
    var p := 0.0;
    ghost var k: nat := 0;
    SampleCountBound(s, 0);
    while p <= 1.0
      invariant p == SampleParam(s, k)
      invariant k <= SampleCount(s)
      invariant |cmds| == k
      invariant forall j :: 0 <= j < k ==> cmds[j] == RenderMarker(Cubic(a, b, c, d, SampleParam(s, j)), color)
      decreases SampleCount(s) - k
    {
      SampleCountBound(s, k);
      cmds := cmds + [RenderMarker(Cubic(a, b, c, d, p), color)];
      SampleParamNext(s, k);
      p := p + s;
      k := k + 1;
    }
    SampleCountBound(s, k);
  }

  /** Every sample parameter lies in [0, 1]; the first marker sits on the
      first control point, and the last parameter is within one step of one. */
  lemma BezierMarkersSpan(a: Vec2, b: Vec2, c: Vec2, d: Vec2, s: real, color: Color)
    requires s > 0.0
    ensures var m := BezierMarkers(a, b, c, d, s, color);
            |m| >= 1 && m[0] == RenderMarker(a, color)
    ensures forall k: nat :: k < SampleCount(s) ==> 0.0 <= SampleParam(s, k) <= 1.0
    ensures 1.0 - s < SampleParam(s, SampleCount(s) - 1)
  {
    forall k: nat | k < SampleCount(s)
      ensures 0.0 <= SampleParam(s, k) <= 1.0
    {
      SampleCountBound(s, k);
    }
    var n := SampleCount(s);
    SampleCountBound(s, n);
    SampleParamNext(s, n - 1);
  }

  /** With the frame's step of 0.01 the loop draws 101 markers, from the
      first control point to the last. */
  lemma CurveStepMarkers(a: Vec2, b: Vec2, c: Vec2, d: Vec2, color: Color)
    ensures var m := BezierMarkers(a, b, c, d, CurveStep, color);
            |m| == 101 && m[0] == RenderMarker(a, color) && m[100] == RenderMarker(d, color)
  {
    assert 1.0 / CurveStep == 100.0;
    assert SampleParam(CurveStep, 100) == 1.0;
  }

  // ---------------------------------------------------------------------
  // The frame

  /** A red marker on every stored control point, in store order. */
  function ControlMarkers(pts: seq<Vec2>): (r: seq<DrawCmd>)
    ensures |r| == |pts|
    ensures forall i :: 0 <= i < |pts| ==>
              r[i].FillRect? && r[i].color == RedColor && Add(r[i].origin, Scale(r[i].size, 0.5)) == pts[i]
  {
    seq(|pts|, i requires 0 <= i < |pts| => RenderMarker(pts[i], RedColor))
  }

  /** The draw list of one frame for the stored points `pts`: the markers,
      and once four points are stored the edges p0-p1 and p2-p3 and the green
      curve markers. */
  function FrameCommands(pts: seq<Vec2>): (r: seq<DrawCmd>)
    ensures |r| >= |pts| && r[..|pts|] == ControlMarkers(pts)
    ensures |pts| < 4 ==> |r| == |pts|
    ensures |pts| >= 4 ==>
              |r| > |pts| + 2
              && r[|pts|] == Line(pts[0], pts[1], RedColor)
              && r[|pts| + 1] == Line(pts[2], pts[3], RedColor)
  {
    ControlMarkers(pts)
      + if |pts| >= 4 then
          [Line(pts[0], pts[1], RedColor), Line(pts[2], pts[3], RedColor)]
            + BezierMarkers(pts[0], pts[1], pts[2], pts[3], CurveStep, GreenColor)
        else []
  }

  /** The shape of a frame: one marker per stored point; with fewer than four
      points nothing else; with four, exactly two lines (p0-p1 and p2-p3,
      never p1-p2) followed by 101 curve markers running from p0 to p3. */
  lemma FrameShape(pts: seq<Vec2>)
    requires |pts| <= 4
    ensures var f := FrameCommands(pts);
            && |f| == (if |pts| == 4 then 107 else |pts|)
            && (forall i :: 0 <= i < |pts| ==> f[i] == RenderMarker(pts[i], RedColor))
            && (forall i :: 0 <= i < |f| && f[i].Line? ==> |pts| == 4 && (i == 4 || i == 5))
    ensures |pts| == 4 ==>
            var f := FrameCommands(pts);
            && f[4] == Line(pts[0], pts[1], RedColor)
            && f[5] == Line(pts[2], pts[3], RedColor)
            && f[6] == RenderMarker(pts[0], GreenColor)
            && f[106] == RenderMarker(pts[3], GreenColor)
  {
    var f := FrameCommands(pts);
    if |pts| == 4 {
      var m := BezierMarkers(pts[0], pts[1], pts[2], pts[3], CurveStep, GreenColor);
      CurveStepMarkers(pts[0], pts[1], pts[2], pts[3], GreenColor);
      assert f == ControlMarkers(pts) + [Line(pts[0], pts[1], RedColor), Line(pts[2], pts[3], RedColor)] + m;
      forall i | 0 <= i < |f|
        ensures f[i].Line? ==> i == 4 || i == 5
      {
        if i >= 6 {
          assert f[i] == m[i - 6];
        }
      }
    }
  }
}
