/** Scalar and 2D-vector arithmetic of the editor (`lerp_f`, `Vec2`, `vec2_add`,
    `vec2_sub`, `vec2_scale`, `lerp_vec2`). The source computes in `float`; this
    model computes in exact reals, so every fact below is about the idealised
    arithmetic, not about rounding. */
module Vectors {

  /** A screen position or displacement (the source's `Vec2`). */
  datatype Vec2 = Vec2(x: real, y: real)

  const Origin := Vec2(0.0, 0.0)

  /** `lerp_f`: linear interpolation `a + (b - a) * p`. The result is the
      affine combination of the end points with weights `1 - p` and `p`. */
  function LerpF(a: real, b: real, p: real): (r: real)
    ensures r == (1.0 - p) * a + p * b
    ensures p == 0.0 ==> r == a
    ensures p == 1.0 ==> r == b
    ensures a == b ==> r == a
  {
    assert (b - a) * p == p * b - p * a;
    a + (b - a) * p
  }

  /** For a parameter in [0, 1] the interpolation stays between its end points. */
  lemma LerpFBetween(a: real, b: real, p: real)
    requires 0.0 <= p <= 1.0
    ensures a <= b ==> a <= LerpF(a, b, p) <= b
    ensures b <= a ==> b <= LerpF(a, b, p) <= a
  {
    var r := LerpF(a, b, p);
    assert r == a + (b - a) * p;
    assert b - r == (b - a) * (1.0 - p);
    if a <= b {
      ProductNonNegative(b - a, p);
      ProductNonNegative(b - a, 1.0 - p);
    } else {
      ProductNonNegative(a - b, p);
      ProductNonNegative(a - b, 1.0 - p);
      assert r - a == -((a - b) * p);
      assert r - b == (a - b) * (1.0 - p);
    }
  }

  lemma ProductNonNegative(x: real, y: real)
    requires 0.0 <= x && 0.0 <= y
    ensures 0.0 <= x * y
  {
  }

  /** `vec2_add`: moving `a` by `b`; taking `b` (or `a`) off again gives the
      other summand back. */
  function Add(a: Vec2, b: Vec2): (r: Vec2)
    ensures Sub(r, b) == a && Sub(r, a) == b
    ensures b == Origin ==> r == a
  {
    Vec2(a.x + b.x, a.y + b.y)
  }

  /** `vec2_sub`: the displacement that carries `b` to `a`. */
  function Sub(a: Vec2, b: Vec2): (r: Vec2)
    ensures r.x + b.x == a.x && r.y + b.y == a.y
    ensures a == b <==> r == Origin
  {
    Vec2(a.x - b.x, a.y - b.y)
  }

  /** `vec2_scale`: `a` stretched by the factor `p`. */
  function Scale(a: Vec2, p: real): (r: Vec2)
    ensures p == 1.0 ==> r == a
    ensures p == 0.0 || a == Origin ==> r == Origin
  {
    Vec2(a.x * p, a.y * p)
  }

  /** Subtraction undoes addition and the other way round. */
  lemma AddSubInverse(a: Vec2, b: Vec2)
    ensures Add(Sub(a, b), b) == a
    ensures Sub(Add(a, b), b) == a
  {
  }

  /** Scaling by one is the identity, scaling by zero gives the origin, and
      scaling distributes over subtraction. */
  lemma ScaleLinear(a: Vec2, b: Vec2, p: real)
    ensures Scale(a, 1.0) == a
    ensures Scale(a, 0.0) == Origin
    ensures Scale(Sub(b, a), p) == Sub(Scale(b, p), Scale(a, p))
  {
  }

  /** `lerp_vec2`: `a + (b - a) * p` on vectors. It is `LerpF` applied to each
      coordinate, so it starts at `a` for `p = 0` and ends at `b` for `p = 1`. */
  function LerpVec2(a: Vec2, b: Vec2, p: real): (r: Vec2)
    ensures r == Vec2(LerpF(a.x, b.x, p), LerpF(a.y, b.y, p))
    ensures p == 0.0 ==> r == a
    ensures p == 1.0 ==> r == b
    ensures a == b ==> r == a
  {
    Add(a, Scale(Sub(b, a), p))
  }

  /** Interpolating from `b` back to `a` with the complementary parameter
      lands on the same point. */
  lemma LerpVec2Reversed(a: Vec2, b: Vec2, p: real)
    ensures LerpVec2(a, b, p) == LerpVec2(b, a, 1.0 - p)
  {
    var l, r := LerpVec2(a, b, p), LerpVec2(b, a, 1.0 - p);
    assert l.x == (1.0 - p) * a.x + p * b.x;
    assert r.x == p * b.x + (1.0 - p) * a.x;
    assert l.y == (1.0 - p) * a.y + p * b.y;
    assert r.y == p * b.y + (1.0 - p) * a.y;
  }
}
