/** The cubic Bézier sample computed inside `render_bezier_markers`: six nested
    linear interpolations over the four control points. A generic de Casteljau
    reduction over any number of points is given as a ghost reference
    definition only (the program itself evaluates cubics alone), and the
    cubic is proved to agree with it and with the Bernstein form. */
module Bezier {
  import opened Vectors

  /** The point `abcd` at parameter `p` of the cubic with control points
      `a`, `b`, `c`, `d`. */
  function Cubic(a: Vec2, b: Vec2, c: Vec2, d: Vec2, p: real): (r: Vec2)
    ensures p == 0.0 ==> r == a
    ensures p == 1.0 ==> r == d
    ensures a == b == c == d ==> r == a
  {
    var ab := LerpVec2(a, b, p);
    var bc := LerpVec2(b, c, p);
    var cd := LerpVec2(c, d, p);
    var abc := LerpVec2(ab, bc, p);
    var bcd := LerpVec2(bc, cd, p);
    LerpVec2(abc, bcd, p)
  }

  /** The Bernstein polynomial of degree three in one coordinate. */
  function BernsteinF(a: real, b: real, c: real, d: real, p: real): real
  {
    var q := 1.0 - p;
    q * q * q * a + 3.0 * q * q * p * b + 3.0 * q * p * p * c + p * p * p * d
  }

  /** (1-p)^3 a + 3(1-p)^2 p b + 3(1-p) p^2 c + p^3 d, coordinate-wise. */
  function Bernstein(a: Vec2, b: Vec2, c: Vec2, d: Vec2, p: real): Vec2
  {
    Vec2(BernsteinF(a.x, b.x, c.x, d.x, p), BernsteinF(a.y, b.y, c.y, d.y, p))
  }

  /** Multiplication distributes over a sum of three terms. */
  lemma Distribute(x: real, y: real, z: real, w: real)
    ensures x * (y + z + w) == x * y + x * z + x * w
  {
  }

  /** Quadratic Bernstein form of two nested interpolations. */
  lemma NestedLerpQuadratic(a: real, b: real, c: real, p: real)
    ensures LerpF(LerpF(a, b, p), LerpF(b, c, p), p)
         == (1.0 - p) * (1.0 - p) * a + 2.0 * (1.0 - p) * p * b + p * p * c
  {
    var q := 1.0 - p;
    var ab, bc := LerpF(a, b, p), LerpF(b, c, p);
    assert ab == q * a + p * b;
    assert bc == q * b + p * c;
    Distribute(q, q * a, p * b, 0.0);
    Distribute(p, q * b, p * c, 0.0);
    assert q * ab == q * q * a + q * p * b;
    assert p * bc == q * p * b + p * p * c;
  }

  /** The three levels of nested interpolation in one coordinate give the
      cubic Bernstein polynomial. */
  lemma NestedLerpCubic(a: real, b: real, c: real, d: real, p: real)
    ensures LerpF(LerpF(LerpF(a, b, p), LerpF(b, c, p), p),
                  LerpF(LerpF(b, c, p), LerpF(c, d, p), p), p)
         == BernsteinF(a, b, c, d, p)
  {
    var q := 1.0 - p;
    var abc := LerpF(LerpF(a, b, p), LerpF(b, c, p), p);
    var bcd := LerpF(LerpF(b, c, p), LerpF(c, d, p), p);
    NestedLerpQuadratic(a, b, c, p);
    NestedLerpQuadratic(b, c, d, p);
    assert abc == q * q * a + 2.0 * q * p * b + p * p * c;
    assert bcd == q * q * b + 2.0 * q * p * c + p * p * d;
    Distribute(q, q * q * a, 2.0 * q * p * b, p * p * c);
    Distribute(p, q * q * b, 2.0 * q * p * c, p * p * d);
    assert q * abc == q * q * q * a + 2.0 * q * q * p * b + q * p * p * c;
    assert p * bcd == q * q * p * b + 2.0 * q * p * p * c + p * p * p * d;
    assert LerpF(abc, bcd, p) == q * abc + p * bcd;
  }

  /** The nested interpolation of the source is the cubic Bernstein combination. */
  lemma CubicIsBernstein(a: Vec2, b: Vec2, c: Vec2, d: Vec2, p: real)
    ensures Cubic(a, b, c, d, p) == Bernstein(a, b, c, d, p)
  {
    NestedLerpCubic(a.x, b.x, c.x, d.x, p);
    NestedLerpCubic(a.y, b.y, c.y, d.y, p);
  }

  /** Walking the control polygon backwards with parameter `1 - p` traces the
      same curve. */
  lemma CubicReversed(a: Vec2, b: Vec2, c: Vec2, d: Vec2, p: real)
    ensures Cubic(a, b, c, d, p) == Cubic(d, c, b, a, 1.0 - p)
  {
    var q := 1.0 - p;
    LerpVec2Reversed(a, b, p);
    LerpVec2Reversed(b, c, p);
    LerpVec2Reversed(c, d, p);
    LerpVec2Reversed(LerpVec2(a, b, p), LerpVec2(b, c, p), p);
    LerpVec2Reversed(LerpVec2(b, c, p), LerpVec2(c, d, p), p);
    LerpVec2Reversed(LerpVec2(LerpVec2(a, b, p), LerpVec2(b, c, p), p),
                     LerpVec2(LerpVec2(b, c, p), LerpVec2(c, d, p), p), p);
  }

  /** At p = 0.5 the interpolation is the midpoint. */
  lemma LerpVec2Half(a: Vec2, b: Vec2)
    ensures LerpVec2(a, b, 0.5) == Vec2((a.x + b.x) / 2.0, (a.y + b.y) / 2.0)
  {
  }

  /** The square polygon (0,0), (100,0), (100,100), (0,100) at p = 0.5:
      every intermediate point of the construction and the sample itself. */
  lemma SquareMidpoint()
    ensures LerpVec2(Vec2(0.0, 0.0), Vec2(100.0, 0.0), 0.5) == Vec2(50.0, 0.0)
    ensures LerpVec2(Vec2(100.0, 0.0), Vec2(100.0, 100.0), 0.5) == Vec2(100.0, 50.0)
    ensures LerpVec2(Vec2(100.0, 100.0), Vec2(0.0, 100.0), 0.5) == Vec2(50.0, 100.0)
    ensures LerpVec2(Vec2(50.0, 0.0), Vec2(100.0, 50.0), 0.5) == Vec2(75.0, 25.0)
    ensures LerpVec2(Vec2(100.0, 50.0), Vec2(50.0, 100.0), 0.5) == Vec2(75.0, 75.0)
    ensures Cubic(Vec2(0.0, 0.0), Vec2(100.0, 0.0), Vec2(100.0, 100.0), Vec2(0.0, 100.0), 0.5)
         == Vec2(75.0, 50.0)
  {
    LerpVec2Half(Vec2(0.0, 0.0), Vec2(100.0, 0.0));
    LerpVec2Half(Vec2(100.0, 0.0), Vec2(100.0, 100.0));
    LerpVec2Half(Vec2(100.0, 100.0), Vec2(0.0, 100.0));
    LerpVec2Half(Vec2(50.0, 0.0), Vec2(100.0, 50.0));
    LerpVec2Half(Vec2(100.0, 50.0), Vec2(50.0, 100.0));
    LerpVec2Half(Vec2(75.0, 25.0), Vec2(75.0, 75.0));
  }

  // ---------------------------------------------------------------------
  // Reference definition: de Casteljau's reduction over any number of points.

  /** One round: each pair of neighbours is replaced by its interpolation. */
  ghost function Reduce(pts: seq<Vec2>, p: real): (r: seq<Vec2>)
    requires |pts| >= 1
    ensures |r| == |pts| - 1
  {
    seq(|pts| - 1, i requires 0 <= i < |pts| - 1 => LerpVec2(pts[i], pts[i + 1], p))
  }

  /** Repeat rounds until one point remains. */
  ghost function DeCasteljau(pts: seq<Vec2>, p: real): Vec2
    requires |pts| >= 1
    decreases |pts|
  {
    if |pts| == 1 then pts[0] else DeCasteljau(Reduce(pts, p), p)
  }

  /** On four points the reduction is exactly the source's nested interpolation. */
  lemma CubicIsDeCasteljau(a: Vec2, b: Vec2, c: Vec2, d: Vec2, p: real)
    ensures DeCasteljau([a, b, c, d], p) == Cubic(a, b, c, d, p)
  {
    var ab, bc, cd := LerpVec2(a, b, p), LerpVec2(b, c, p), LerpVec2(c, d, p);
    var abc, bcd := LerpVec2(ab, bc, p), LerpVec2(bc, cd, p);
    assert Reduce([a, b, c, d], p) == [ab, bc, cd];
    assert Reduce([ab, bc, cd], p) == [abc, bcd];
    assert Reduce([abc, bcd], p) == [LerpVec2(abc, bcd, p)];
    assert DeCasteljau([a, b, c, d], p) == DeCasteljau([ab, bc, cd], p);
    assert DeCasteljau([ab, bc, cd], p) == DeCasteljau([abc, bcd], p);
    assert DeCasteljau([abc, bcd], p) == DeCasteljau([LerpVec2(abc, bcd, p)], p);
  }

  /** Every curve starts at its first control point. */
  lemma {:induction false} DeCasteljauAtZero(pts: seq<Vec2>)
    requires |pts| >= 1
    ensures DeCasteljau(pts, 0.0) == pts[0]
    decreases |pts|
  {
    if |pts| > 1 {
      var r := Reduce(pts, 0.0);
      DeCasteljauAtZero(r);
      assert r[0] == LerpVec2(pts[0], pts[1], 0.0);
    }
  }

  /** Every curve ends at its last control point. */
  lemma {:induction false} DeCasteljauAtOne(pts: seq<Vec2>)
    requires |pts| >= 1
    ensures DeCasteljau(pts, 1.0) == pts[|pts| - 1]
    decreases |pts|
  {
    if |pts| > 1 {
      var r := Reduce(pts, 1.0);
      DeCasteljauAtOne(r);
      assert r[|r| - 1] == LerpVec2(pts[|pts| - 2], pts[|pts| - 1], 1.0);
    }
  }

  /** A curve whose control points all coincide is that single point. */
  lemma {:induction false} DeCasteljauConstant(pts: seq<Vec2>, q: Vec2, p: real)
    requires |pts| >= 1
    requires forall i :: 0 <= i < |pts| ==> pts[i] == q
    ensures DeCasteljau(pts, p) == q
    decreases |pts|
  {
    if |pts| > 1 {
      var r := Reduce(pts, p);
      forall i | 0 <= i < |r|
        ensures r[i] == q
      {
        assert pts[i] == q && pts[i + 1] == q;
      }
      DeCasteljauConstant(r, q, p);
    }
  }
}
