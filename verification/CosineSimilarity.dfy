/**
  The score of two vectors (engine/include/avx_math.hh), over the reals: the unrolled
  eight-lane form computes the scalar loop's dot product.
 */
module CosineSimilarity {
  // engine/include/constant.hh
  const VECTOR_DIM: nat := 384

  type Vector = seq<real>

  // A 256-bit register: eight lanes
  type M256 = r: seq<real> | |r| == 8 witness [0.0, 0.0, 0.0, 0.0, 0.0, 0.0, 0.0, 0.0]
  // A 128-bit register: four lanes
  type M128 = r: seq<real> | |r| == 4 witness [0.0, 0.0, 0.0, 0.0]

  /** Dot product of the first n components. */
  function DotTo(a: Vector, b: Vector, n: nat): real
    requires n <= |a| && n <= |b|
  {
    if n == 0 then 0.0 else DotTo(a, b, n - 1) + a[n - 1] * b[n - 1]
  }

  function Dot(a: Vector, b: Vector): real
    requires |a| == |b|
  {
    DotTo(a, b, |a|)
  }

  // ----- the instructions used -----

  function SetZero(): M256 { [0.0, 0.0, 0.0, 0.0, 0.0, 0.0, 0.0, 0.0] }

  function Load(v: Vector, i: nat): M256
    requires i + 8 <= |v|
  {
    v[i..i + 8]
  }

  function FusedMultiplyAdd(a: M256, b: M256, c: M256): M256 {
    [a[0] * b[0] + c[0], a[1] * b[1] + c[1], a[2] * b[2] + c[2], a[3] * b[3] + c[3],
     a[4] * b[4] + c[4], a[5] * b[5] + c[5], a[6] * b[6] + c[6], a[7] * b[7] + c[7]]
  }

  function Add256(a: M256, b: M256): M256 {
    [a[0] + b[0], a[1] + b[1], a[2] + b[2], a[3] + b[3], a[4] + b[4], a[5] + b[5], a[6] + b[6], a[7] + b[7]]
  }

  function Add128(a: M128, b: M128): M128 {
    [a[0] + b[0], a[1] + b[1], a[2] + b[2], a[3] + b[3]]
  }

  function HorizontalAdd(a: M128, b: M128): M128 {
    [a[0] + a[1], a[2] + a[3], b[0] + b[1], b[2] + b[3]]
  }

  // ----- refinement -----

  function Lanes(r: M256): real {
    r[0] + r[1] + r[2] + r[3] + r[4] + r[5] + r[6] + r[7]
  }

  /** One fused multiply-add takes in eight components of the dot product. */
  lemma EightMore(a: Vector, b: Vector, i: nat, acc: M256)
    requires i + 8 <= |a| && i + 8 <= |b|
    ensures Lanes(FusedMultiplyAdd(Load(a, i), Load(b, i), acc)) ==
            Lanes(acc) + DotTo(a, b, i + 8) - DotTo(a, b, i)
  {
    var x, y := Load(a, i), Load(b, i);
    assert DotTo(a, b, i + 2) == DotTo(a, b, i) + x[0] * y[0] + x[1] * y[1];
    assert DotTo(a, b, i + 4) == DotTo(a, b, i + 2) + x[2] * y[2] + x[3] * y[3];
    assert DotTo(a, b, i + 6) == DotTo(a, b, i + 4) + x[4] * y[4] + x[5] * y[5];
    assert DotTo(a, b, i + 8) == DotTo(a, b, i + 6) + x[6] * y[6] + x[7] * y[7];
  }

  lemma NextBlock(i: nat, n: nat)
    requires i % 32 == 0 && n % 32 == 0 && i < n
    ensures i + 32 <= n && (i + 32) % 32 == 0
  {
  }

  /** Adding registers up, splitting into halves and two horizontal adds leave the sum of all lanes in lane 0. */
  lemma AllLanesReduced(a: M256, b: M256, c: M256, d: M256)
    ensures var r := Add256(Add256(a, b), Add256(c, d));
            var half := Add128(r[..4], r[4..]);
            var pairs := HorizontalAdd(half, half);
            HorizontalAdd(pairs, pairs)[0] == Lanes(a) + Lanes(b) + Lanes(c) + Lanes(d)
  {
  }

  lemma ThirtyTwoMore(q: Vector, v: Vector, i: nat, a: M256, b: M256, c: M256, d: M256)
    requires i + 32 <= |q| && i + 32 <= |v|
    ensures Lanes(FusedMultiplyAdd(Load(q, i), Load(v, i), a)) +
            Lanes(FusedMultiplyAdd(Load(q, i + 8), Load(v, i + 8), b)) +
            Lanes(FusedMultiplyAdd(Load(q, i + 16), Load(v, i + 16), c)) +
            Lanes(FusedMultiplyAdd(Load(q, i + 24), Load(v, i + 24), d)) ==
            Lanes(a) + Lanes(b) + Lanes(c) + Lanes(d) + DotTo(q, v, i + 32) - DotTo(q, v, i)
  {
    hide Lanes, FusedMultiplyAdd, Load, DotTo;
    EightMore(q, v, i, a);
    EightMore(q, v, i + 8, b);
    EightMore(q, v, i + 16, c);
    EightMore(q, v, i + 24, d);
  }

  /** The AVX2 form, for every dimension that is a multiple of its unroll width. */
  method CosineSimilarityAvx(query: Vector, nodeVector: Vector) returns (score: real)
    requires |query| == |nodeVector| && |query| % 32 == 0
    ensures score == Dot(query, nodeVector)
  {
    var sum0, sum1, sum2, sum3 := SetZero(), SetZero(), SetZero(), SetZero();
    var i := 0;
    assert Lanes(SetZero()) == 0.0 && DotTo(query, nodeVector, 0) == 0.0;
    hide SetZero, Lanes, FusedMultiplyAdd, Load, Add256, Add128, HorizontalAdd, DotTo;
    while i < |query|
      invariant 0 <= i <= |query| && i % 32 == 0
      invariant Lanes(sum0) + Lanes(sum1) + Lanes(sum2) + Lanes(sum3) == DotTo(query, nodeVector, i)
    {
      NextBlock(i, |query|);
      ThirtyTwoMore(query, nodeVector, i, sum0, sum1, sum2, sum3);
      sum0 := FusedMultiplyAdd(Load(query, i), Load(nodeVector, i), sum0);
      sum1 := FusedMultiplyAdd(Load(query, i + 8), Load(nodeVector, i + 8), sum1);
      sum2 := FusedMultiplyAdd(Load(query, i + 16), Load(nodeVector, i + 16), sum2);
      sum3 := FusedMultiplyAdd(Load(query, i + 24), Load(nodeVector, i + 24), sum3);
      i := i + 32;
    }
    AllLanesReduced(sum0, sum1, sum2, sum3);
    var sumVec := Add256(Add256(sum0, sum1), Add256(sum2, sum3));
    var sumLow, sumHigh := sumVec[..4], sumVec[4..];
    var sum128 := Add128(sumLow, sumHigh);
    sum128 := HorizontalAdd(sum128, sum128);
    sum128 := HorizontalAdd(sum128, sum128);
    score := sum128[0];
  }

  /** The scalar fallback. */
  method CosineSimilarityScalar(query: Vector, nodeVector: Vector) returns (score: real)
    requires |query| == |nodeVector|
    ensures score == Dot(query, nodeVector)
  {
    score := 0.0;
    for i := 0 to |query|
      invariant score == DotTo(query, nodeVector, i)
    {
      score := score + query[i] * nodeVector[i];
    }
  }

  // ----- algebra of the dot product -----

  /** In one dimension the score is the product. */
  lemma DotOfOne(x: real, y: real)
    ensures Dot([x], [y]) == x * y
  {
    assert DotTo([x], [y], 1) == DotTo([x], [y], 0) + x * y;
  }

  lemma {:induction false} DotToOfConcat(a: Vector, b: Vector, c: Vector, d: Vector, n: nat)
    requires |a| == |b| && |c| == |d| && n <= |c|
    ensures DotTo(a + c, b + d, |a| + n) == Dot(a, b) + DotTo(c, d, n)
  {
    if n == 0 {
      DotToOfPrefix(a, c, b, d, |a|);
    } else {
      DotToOfConcat(a, b, c, d, n - 1);
    }
  }

  lemma {:induction false} DotToOfPrefix(a: Vector, c: Vector, b: Vector, d: Vector, n: nat)
    requires n <= |a| == |b|
    ensures DotTo(a + c, b + d, n) == DotTo(a, b, n)
  {
    if n > 0 {
      DotToOfPrefix(a, c, b, d, n - 1);
    }
  }

  /** The score adds up over the parts of the vectors; with `DotOfOne` this says what it is. */
  lemma DotOfConcat(a: Vector, b: Vector, c: Vector, d: Vector)
    requires |a| == |b| && |c| == |d|
    ensures Dot(a + c, b + d) == Dot(a, b) + Dot(c, d)
  {
    DotToOfConcat(a, b, c, d, |c|);
  }

  lemma {:induction false} DotCommutes(a: Vector, b: Vector, n: nat)
    requires n <= |a| && n <= |b|
    ensures DotTo(a, b, n) == DotTo(b, a, n)
  {
    if n > 0 {
      DotCommutes(a, b, n - 1);
    }
  }

  function Scale(a: Vector, c: real): Vector {
    seq(|a|, i requires 0 <= i < |a| => a[i] * c)
  }

  lemma {:induction false} DotOfScaled(a: Vector, b: Vector, c: real, n: nat)
    requires n <= |a| && n <= |b|
    ensures DotTo(Scale(a, c), b, n) == c * DotTo(a, b, n)
  {
    if n > 0 {
      DotOfScaled(a, b, c, n - 1);
      var x, y := a[n - 1], b[n - 1];
      assert (x * c) * y == c * (x * y);
      assert c * (DotTo(a, b, n - 1) + x * y) == c * DotTo(a, b, n - 1) + c * (x * y);
    }
  }

  lemma SquareNotNegative(x: real)
    ensures x * x >= 0.0
  {
  }

  lemma Distribute(p: real, u: real, v: real)
    ensures p * (u + v) == p * u + p * v
  {
  }

  lemma Binomial(s: real, x: real, y: real)
    ensures (s * x - y) * (s * x - y) == s * s * (x * x) - 2.0 * s * (x * y) + y * y
  {
  }

  /** The sum of the squares of the components of s·a - b, multiplied out, is not negative. */
  lemma {:induction false} SquareOfDifference(a: Vector, b: Vector, s: real, n: nat)
    requires n <= |a| && n <= |b|
    ensures s * s * DotTo(a, a, n) - 2.0 * s * DotTo(a, b, n) + DotTo(b, b, n) >= 0.0
  {
    if n > 0 {
      SquareOfDifference(a, b, s, n - 1);
      var x, y := a[n - 1], b[n - 1];
      SquareNotNegative(s * x - y);
      Binomial(s, x, y);
      Distribute(s * s, DotTo(a, a, n - 1), x * x);
      Distribute(2.0 * s, DotTo(a, b, n - 1), x * y);
    }
  }

  lemma Solve(c: real, e: real) returns (s: real)
    requires e != 0.0
    ensures 2.0 * s * e == c
  {
    s := c / (2.0 * e);
    assert s * (2.0 * e) == c;
  }

  /** The Cauchy-Schwarz inequality, in every dimension. */
  lemma CauchySchwarz(a: Vector, b: Vector)
    requires |a| == |b|
    ensures Dot(a, b) * Dot(a, b) <= Dot(a, a) * Dot(b, b)
  {
    var d, e, f := Dot(a, a), Dot(a, b), Dot(b, b);
    if d == 0.0 {
      if e != 0.0 {
        var s := Solve(f + 1.0, e);
        SquareOfDifference(a, b, s, |a|);
        assert false;
      }
    } else {
      SquareOfDifference(b, a, 0.0, |a|);
      var s := e / d;
      SquareOfDifference(a, b, s, |a|);
      assert s * d == e;
      assert s * s * d == s * e;
      assert s * e <= f;
      assert d * (s * e) == e * e;
    }
  }
}
