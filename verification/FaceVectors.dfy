/** Face vectors over the reals: normalisation, cosine similarity and how far it can move. */
module FaceVectors {
  import opened Base

  const MAX_DIMENSIONS: nat := 4096

  type Vector = seq<real>

  datatype TemplateError = InvalidDimensions | DegenerateTemplate | DimensionMismatch | NoTemplates

  function Dot(a: Vector, b: Vector): real
    requires |a| == |b|
  {
    if a == [] then 0.0 else Dot(a[..|a| - 1], b[..|b| - 1]) + a[|a| - 1] * b[|b| - 1]
  }

  ghost predicate Unit(v: Vector) { Dot(v, v) == 1.0 }

  // d - t * v
  function Minus(d: Vector, v: Vector, t: real): (r: Vector)
    requires |d| == |v|
    ensures |r| == |d|
  {
    if d == [] then [] else Minus(d[..|d| - 1], v[..|d| - 1], t) + [d[|d| - 1] - t * v[|d| - 1]]
  }

  // ------------------------------------------------------------------------- normalisation

  // `norm` is the square root of the sum of squares.
  function Normalize(values: Vector, norm: real): Result<Vector, TemplateError>
    requires norm >= 0.0 && norm * norm == Dot(values, values)
  {
    if values == [] || |values| > MAX_DIMENSIONS then Err(InvalidDimensions)
    else if norm <= 0.0 then Err(DegenerateTemplate)
    else Ok(Scaled(values, 1.0 / norm))
  }

  function Scaled(v: Vector, c: real): (r: Vector)
    ensures |r| == |v|
  {
    if v == [] then [] else Scaled(v[..|v| - 1], c) + [v[|v| - 1] * c]
  }

  lemma FactorOut(rest: real, x: real, y: real, c: real, d: real)
    ensures c * d * rest + (x * c) * (y * d) == c * d * (rest + x * y)
  {
    assert (x * c) * (y * d) == c * d * (x * y);
  }

  lemma {:induction false} DotScaled(a: Vector, c: real, b: Vector, d: real)
    requires |a| == |b|
    ensures Dot(Scaled(a, c), Scaled(b, d)) == c * d * Dot(a, b)
    decreases |a|
  {
    if a != [] {
      var n := |a| - 1;
      assert Scaled(a, c)[..n] == Scaled(a[..n], c) && Scaled(b, d)[..n] == Scaled(b[..n], d);
      DotScaled(a[..n], c, b[..n], d);
      FactorOut(Dot(a[..n], b[..n]), a[n], b[n], c, d);
    }
  }

  lemma ReciprocalSquare(norm: real)
    requires norm > 0.0
    ensures (1.0 / norm) * (1.0 / norm) * (norm * norm) == 1.0
  {
    var c := 1.0 / norm;
    assert c * norm == 1.0;
    assert c * c * (norm * norm) == (c * norm) * (c * norm);
  }

  // The result has length one.
  lemma NormalizeIsUnit(values: Vector, norm: real)
    requires norm >= 0.0 && norm * norm == Dot(values, values) && Normalize(values, norm).Ok?
    ensures Unit(Normalize(values, norm).value)
  {
    DotScaled(values, 1.0 / norm, values, 1.0 / norm);
    ReciprocalSquare(norm);
  }

  lemma {:induction false} ScaledAt(v: Vector, c: real, i: nat)
    requires i < |v|
    ensures Scaled(v, c)[i] == v[i] * c
  {
    if i < |v| - 1 { ScaledAt(v[..|v| - 1], c, i); }
  }

  // Between 1 and 4096 values that are not all zero are normalised, and only by their length.
  lemma NormalizeIff(values: Vector, norm: real)
    requires norm >= 0.0 && norm * norm == Dot(values, values)
    ensures Normalize(values, norm).Ok? <==> 1 <= |values| <= 4096 && norm != 0.0
    ensures Normalize(values, norm).Ok? ==>
      var v := Normalize(values, norm).value;
      |v| == |values| && forall i :: 0 <= i < |v| ==> v[i] * norm == values[i]
  {
    if Normalize(values, norm).Ok? {
      forall i | 0 <= i < |values| ensures Normalize(values, norm).value[i] * norm == values[i] {
        ScaledAt(values, 1.0 / norm, i);
        assert values[i] * (1.0 / norm) * norm == values[i] * ((1.0 / norm) * norm);
      }
    }
  }

  // ---------------------------------------------------------------------------- similarity

  function Clamp(x: real): real { if x > 1.0 then 1.0 else if x < -1.0 then -1.0 else x }

  function Similarity(left: Vector, right: Vector): Result<real, TemplateError> {
    if |left| != |right| then Err(DimensionMismatch) else Ok(Clamp(Dot(left, right)))
  }

  lemma {:induction false} DotIsSymmetric(a: Vector, b: Vector)
    requires |a| == |b|
    ensures Dot(a, b) == Dot(b, a)
    decreases |a|
  {
    if a != [] { DotIsSymmetric(a[..|a| - 1], b[..|b| - 1]); }
  }

  lemma {:induction false} SquareIsNonNegative(v: Vector)
    ensures Dot(v, v) >= 0.0
    decreases |v|
  {
    if v != [] { SquareIsNonNegative(v[..|v| - 1]); }
  }

  lemma {:induction false} DotMinus(d: Vector, v: Vector, t: real, w: Vector)
    requires |d| == |v| == |w|
    ensures Dot(Minus(d, v, t), w) == Dot(d, w) - t * Dot(v, w)
    decreases |d|
  {
    if d != [] {
      var n := |d| - 1;
      assert Minus(d, v, t)[..n] == Minus(d[..n], v[..n], t);
      DotMinus(d[..n], v[..n], t, w[..n]);
      Distribute(d[n], v[n], w[n], t, Dot(v[..n], w[..n]));
    }
  }

  lemma Distribute(d: real, v: real, w: real, t: real, rest: real)
    ensures (d - t * v) * w == d * w - t * (v * w)
    ensures t * (rest + v * w) == t * rest + t * (v * w)
  {}

  lemma AcrossIsOrthogonal(d: Vector, v: Vector)
    requires |d| == |v| && Unit(v)
    ensures Dot(Minus(d, v, Dot(d, v)), v) == 0.0
  {
    DotMinus(d, v, Dot(d, v), v);
  }

  lemma AcrossAlong(d: Vector, v: Vector, t: real)
    requires |d| == |v| && t == Dot(d, v)
    ensures Dot(Minus(d, v, t), d) == Dot(d, d) - t * t
  {
    DotMinus(d, v, t, d);
    DotIsSymmetric(v, d);
  }

  lemma AcrossSquare(d: Vector, v: Vector, t: real)
    requires |d| == |v| && Dot(Minus(d, v, t), v) == 0.0
    ensures Dot(Minus(d, v, t), Minus(d, v, t)) == Dot(Minus(d, v, t), d)
  {
    var across := Minus(d, v, t);
    DotMinus(d, v, t, across);
    DotIsSymmetric(d, across);
    DotIsSymmetric(v, across);
    assert t * Dot(v, across) == t * 0.0;
  }

  // Cauchy and Schwarz against a unit vector: the part of d across v has a non-negative square.
  lemma UnitBoundsDot(d: Vector, v: Vector, t: real)
    requires |d| == |v| && Unit(v) && t == Dot(d, v)
    ensures t * t <= Dot(d, d)
  {
    AcrossIsOrthogonal(d, v);
    AcrossSquare(d, v, t);
    AcrossAlong(d, v, t);
    SquareIsNonNegative(Minus(d, v, t));
  }

  lemma SquareGrows(x: real, e: real)
    requires 0.0 <= e < x
    ensures x * x > e * e
  {
    var gap := x - e;
    assert x * x == e * e + 2.0 * (e * gap) + gap * gap;
  }

  lemma SquareBounds(x: real, e: real)
    requires e >= 0.0 && x * x <= e * e
    ensures -e <= x <= e
  {
    if x > e { SquareGrows(x, e); }
    if -x > e { SquareGrows(-x, e); }
  }

  // For exactly normalised vectors the clamp changes nothing.
  lemma ClampIsIdle(left: Vector, right: Vector)
    requires |left| == |right| && Unit(left) && Unit(right)
    ensures Similarity(left, right) == Ok(Dot(left, right))
    ensures -1.0 <= Dot(left, right) <= 1.0
  {
    UnitBoundsDot(left, right, Dot(left, right));
    SquareBounds(Dot(left, right), 1.0);
  }

  // The squared distance of two vectors.
  function Apart(a: Vector, b: Vector): real
    requires |a| == |b|
  {
    Dot(Minus(a, b, 1.0), Minus(a, b, 1.0))
  }

  // Moving the query by at most e moves its similarity to any template by at most e.
  lemma SimilarityIsLipschitz(q: Vector, r: Vector, v: Vector, e: real)
    requires |q| == |r| == |v| && Unit(q) && Unit(r) && Unit(v)
    requires e >= 0.0 && Apart(q, r) <= e * e
    ensures Similarity(q, v).Ok? && Similarity(r, v).Ok?
    ensures -e <= Similarity(q, v).value - Similarity(r, v).value <= e
  {
    ClampIsIdle(q, v);
    ClampIsIdle(r, v);
    var d := Minus(q, r, 1.0);
    DotMinus(q, r, 1.0, v);
    UnitBoundsDot(d, v, Dot(d, v));
    SquareBounds(Dot(d, v), e);
  }
}
