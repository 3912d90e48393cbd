/**
  Mean pooling and L2 normalisation of the model's output (engine/src/embedder.cc), over the
  reals, and what they guarantee about scores.
 */
module Embedder {
  import opened CosineSimilarity

  datatype Encoding =
    | Encoded(vector: Vector)
    | EmptySequence
    | UnexpectedDimension
    | Degenerate

  /** Column j of the first n rows of a row-major matrix, summed. */
  function ColumnSum(data: seq<real>, n: nat, j: nat): real
    requires n * VECTOR_DIM <= |data| && j < VECTOR_DIM
  {
    if n == 0 then 0.0 else ColumnSum(data, n - 1, j) + data[(n - 1) * VECTOR_DIM + j]
  }

  function ColumnSums(data: seq<real>, n: nat): Vector
    requires n * VECTOR_DIM <= |data|
  {
    seq(VECTOR_DIM, j requires 0 <= j < VECTOR_DIM => ColumnSum(data, n, j))
  }

  /** The column sums of a single row are that row. */
  lemma ColumnSumsOfOneRow(row: seq<real>)
    requires |row| == VECTOR_DIM
    ensures ColumnSums(row, 1) == row
  {
    forall j | 0 <= j < VECTOR_DIM ensures ColumnSums(row, 1)[j] == row[j] {
      assert ColumnSum(row, 1, j) == ColumnSum(row, 0, j) + row[j];
    }
  }

  lemma {:induction false} ColumnSumOfStack(x: seq<real>, y: seq<real>, m: nat, n: nat, j: nat)
    requires |x| == m * VECTOR_DIM && n * VECTOR_DIM <= |y| && j < VECTOR_DIM
    requires (m + n) * VECTOR_DIM <= |x + y|
    ensures ColumnSum(x + y, m + n, j) == ColumnSum(x, m, j) + ColumnSum(y, n, j)
  {
    if n == 0 {
      ColumnSumOfPrefix(x, y, m, j);
    } else {
      ColumnSumOfStack(x, y, m, n - 1, j);
      assert (x + y)[(m + n - 1) * VECTOR_DIM + j] == y[(n - 1) * VECTOR_DIM + j];
    }
  }

  lemma {:induction false} ColumnSumOfPrefix(x: seq<real>, y: seq<real>, m: nat, j: nat)
    requires m * VECTOR_DIM <= |x| && j < VECTOR_DIM && m * VECTOR_DIM <= |x + y|
    ensures ColumnSum(x + y, m, j) == ColumnSum(x, m, j)
  {
    if m > 0 {
      ColumnSumOfPrefix(x, y, m - 1, j);
    }
  }

  /** Stacking two matrices adds their column sums; with `ColumnSumsOfOneRow` this says what they are. */
  lemma ColumnSumsOfStack(x: seq<real>, y: seq<real>, m: nat, n: nat, j: nat)
    requires |x| == m * VECTOR_DIM && |y| == n * VECTOR_DIM && j < VECTOR_DIM
    ensures |x + y| == (m + n) * VECTOR_DIM
    ensures ColumnSums(x + y, m + n)[j] == ColumnSums(x, m)[j] + ColumnSums(y, n)[j]
  {
    ColumnSumOfStack(x, y, m, n, j);
  }

  /** `v` points in the direction of `a` and has length one. */
  ghost predicate UnitAlong(v: Vector, a: Vector) {
    Dot(v, v) == 1.0 && exists c :: c > 0.0 && v == Scale(a, c)
  }

  // ----- scaling -----

  lemma DotOfScaledSelf(a: Vector, c: real)
    ensures Dot(Scale(a, c), Scale(a, c)) == c * c * Dot(a, a)
  {
    var s := Scale(a, c);
    DotOfScaled(a, s, c, |a|);
    DotCommutes(a, s, |a|);
    DotOfScaled(a, a, c, |a|);
    assert DotTo(s, s, |a|) == c * (c * DotTo(a, a, |a|));
  }

  lemma ScaleTwice(a: Vector, c: real, d: real)
    ensures Scale(Scale(a, c), d) == Scale(a, c * d)
  {
    var twice, once := Scale(Scale(a, c), d), Scale(a, c * d);
    forall i | 0 <= i < |a| ensures twice[i] == once[i] {
      assert a[i] * c * d == a[i] * (c * d);
    }
  }

  lemma PositiveRootIsUnique(c: real, d: real, s: real)
    requires c > 0.0 && d > 0.0 && c * c * s == 1.0 && d * d * s == 1.0
    ensures c == d
  {
  }

  /**
    A direction has one unit vector, so dividing by the sequence length before normalising does
    not change the result.
   */
  lemma UnitAlongIsUnique(v: Vector, w: Vector, a: Vector)
    requires UnitAlong(v, a) && UnitAlong(w, a)
    ensures v == w
  {
    var c :| c > 0.0 && v == Scale(a, c);
    var d :| d > 0.0 && w == Scale(a, d);
    hide Scale, Dot;
    DotOfScaledSelf(a, c);
    DotOfScaledSelf(a, d);
    PositiveRootIsUnique(c, d, Dot(a, a));
  }

  lemma SwapFactors(x: real, y: real, c: real)
    ensures (x * c) * y == (y * c) * x
    ensures c > 0.0 ==> (x * c) * x >= 0.0
  {
    assert (x * c) * x == c * (x * x);
    SquareNotNegative(x);
  }

  /** In components: all ratios are the same, and no component changes its sign. */
  lemma AlongComponents(v: Vector, a: Vector)
    requires UnitAlong(v, a)
    ensures |v| == |a| && Dot(v, v) == 1.0
    ensures forall i, j :: 0 <= i < |a| && 0 <= j < |a| ==> v[i] * a[j] == v[j] * a[i]
    ensures forall j :: 0 <= j < |a| ==> v[j] * a[j] >= 0.0
  {
    var c :| c > 0.0 && v == Scale(a, c);
    forall i, j | 0 <= i < |a| && 0 <= j < |a| ensures v[i] * a[j] == v[j] * a[i] && v[j] * a[j] >= 0.0 {
      SwapFactors(a[i], a[j], c);
      SwapFactors(a[j], a[j], c);
    }
  }

  lemma MeanDoesNotMatter(v: Vector, a: Vector, n: real)
    requires n > 0.0
    ensures UnitAlong(v, Scale(a, 1.0 / n)) <==> UnitAlong(v, a)
  {
    var m := 1.0 / n;
    if UnitAlong(v, Scale(a, m)) {
      var c :| c > 0.0 && v == Scale(Scale(a, m), c);
      ScaleTwice(a, m, c);
      PositiveProduct(m, c);
    }
    if UnitAlong(v, a) {
      var c :| c > 0.0 && v == Scale(a, c);
      var d := n * c;
      ScaleTwice(a, m, d);
      Cancel(n, c);
      PositiveProduct(n, c);
      assert m * d == c;
      assert d > 0.0 && v == Scale(Scale(a, m), d);
    }
  }

  lemma PositiveProduct(x: real, y: real)
    requires x > 0.0 && y > 0.0
    ensures x * y > 0.0
  {
  }

  lemma Cancel(n: real, c: real)
    requires n > 0.0
    ensures 1.0 / n * (n * c) == c
  {
  }

  // ----- the loops -----

  /** `root` stands for std::sqrt, which the source calls once. */
  ghost predicate IsSquareRoot(root: real -> real) {
    forall x :: x > 0.0 ==> root(x) > 0.0 && root(x) * root(x) == x
  }

  method Encode(seqLength: nat, vecDimension: nat, data: seq<real>, root: real -> real) returns (r: Encoding)
    requires |data| == seqLength * vecDimension
    requires IsSquareRoot(root)
    ensures r.EmptySequence? <==> seqLength == 0
    ensures r.UnexpectedDimension? <==> seqLength > 0 && vecDimension != VECTOR_DIM
    ensures seqLength > 0 && vecDimension == VECTOR_DIM ==>
              var sums := ColumnSums(data, seqLength);
              var mean := Scale(sums, 1.0 / seqLength as real);
              (r.Degenerate? <==> Dot(mean, mean) < 0.000000001) &&
              (r.Encoded? ==> UnitAlong(r.vector, sums))
    ensures seqLength == 1 && r.Encoded? ==>
              |r.vector| == |data| && Dot(r.vector, r.vector) == 1.0 &&
              (forall j :: 0 <= j < |data| ==> r.vector[j] * data[j] >= 0.0) &&
              forall i, j :: 0 <= i < |data| && 0 <= j < |data| ==> r.vector[i] * data[j] == r.vector[j] * data[i]
  {
    hide ColumnSums, Scale, Dot, UnitAlong, IsSquareRoot;
    if seqLength == 0 {
      return EmptySequence;
    }
    if vecDimension != VECTOR_DIM {
      return UnexpectedDimension;
    }
    var buffer := MeanPool(seqLength, data);
    var degenerate := Normalise(buffer, root);
    if degenerate {
      return Degenerate;
    }
    MeanDoesNotMatter(buffer[..], ColumnSums(data, seqLength), seqLength as real);
    if seqLength == 1 {
      ColumnSumsOfOneRow(data);
      AlongComponents(buffer[..], data);
    }
    return Encoded(buffer[..]);
  }

  /** Step 7: squeezes the matrix into one row. */
  method MeanPool(seqLength: nat, data: seq<real>) returns (buffer: array<real>)
    requires seqLength > 0 && |data| == seqLength * VECTOR_DIM
    ensures fresh(buffer) && buffer.Length == VECTOR_DIM
    ensures buffer[..] == Scale(ColumnSums(data, seqLength), 1.0 / seqLength as real)
  {
    buffer := new real[VECTOR_DIM](_ => 0.0);
    for i := 0 to seqLength
      invariant buffer[..] == ColumnSums(data, i)
    {
      AddRow(data, i, buffer);
    }
    ghost var sums := ColumnSums(data, seqLength);
    var length := seqLength as real;
    ghost var mean := Scale(sums, 1.0 / length);
    hide ColumnSums;
    for i := 0 to VECTOR_DIM
      invariant forall j :: 0 <= j < i ==> buffer[j] == mean[j]
      invariant forall j :: i <= j < VECTOR_DIM ==> buffer[j] == sums[j]
    {
      DivideIsScale(sums[i], length);
      buffer[i] := buffer[i] / length;
    }
  }

  lemma DivideIsScale(x: real, n: real)
    requires n > 0.0
    ensures x / n == x * (1.0 / n)
  {
  }

  /** Step 8: scales the buffer to length one, unless it is too short for that. */
  method Normalise(buffer: array<real>, root: real -> real) returns (degenerate: bool)
    requires buffer.Length == VECTOR_DIM && IsSquareRoot(root)
    modifies buffer
    ensures var mean := old(buffer[..]);
            (degenerate <==> Dot(mean, mean) < 0.000000001) &&
            (if degenerate then buffer[..] == mean else UnitAlong(buffer[..], mean))
  {
    ghost var mean := buffer[..];
    var sumSq := 0.0;
    for i := 0 to VECTOR_DIM
      invariant buffer[..] == mean
      invariant sumSq == DotTo(mean, mean, i)
    {
      sumSq := sumSq + buffer[i] * buffer[i];
    }
    if sumSq < 0.000000001 {
      return true;
    }
    var invMagnitude := 1.0 / root(sumSq);
    ghost var scaled := Scale(mean, invMagnitude);
    for i := 0 to VECTOR_DIM
      invariant forall j :: 0 <= j < i ==> buffer[j] == scaled[j]
      invariant forall j :: i <= j < VECTOR_DIM ==> buffer[j] == mean[j]
    {
      buffer[i] := buffer[i] * invMagnitude;
    }
    assert buffer[..] == scaled;
    Normalised(mean, root(sumSq));
    return false;
  }

  method AddRow(data: seq<real>, i: nat, buffer: array<real>)
    requires (i + 1) * VECTOR_DIM <= |data|
    requires buffer.Length == VECTOR_DIM && buffer[..] == ColumnSums(data, i)
    modifies buffer
    ensures buffer[..] == ColumnSums(data, i + 1)
  {
    for j := 0 to VECTOR_DIM
      invariant forall k :: 0 <= k < j ==> buffer[k] == ColumnSum(data, i + 1, k)
      invariant forall k :: j <= k < VECTOR_DIM ==> buffer[k] == ColumnSum(data, i, k)
    {
      buffer[j] := buffer[j] + data[i * VECTOR_DIM + j];
    }
  }

  lemma Normalised(a: Vector, root: real)
    requires root > 0.0 && root * root == Dot(a, a)
    ensures UnitAlong(Scale(a, 1.0 / root), a)
  {
    var c := 1.0 / root;
    DotOfScaledSelf(a, c);
    assert c * root == 1.0;
    assert c * c * (root * root) == (c * root) * (c * root);
  }

  // ----- what this means for scores -----

  lemma SquareAtMostOne(e: real)
    requires e * e <= 1.0
    ensures -1.0 <= e <= 1.0
  {
  }

  lemma SquareNotPositive(d: real)
    ensures d * d <= 0.0 ==> d == 0.0
  {
    if d != 0.0 {
      var e := 1.0 / d;
      assert e * d == 1.0;
      assert (e * e) * (d * d) == 1.0;
      SquareNotNegative(e);
    }
  }

  /** Two encoded vectors always score between -1 and 1, and each scores 1 with itself. */
  lemma ScoresAreBounded(v: Vector, w: Vector)
    requires |v| == |w| && Dot(v, v) == 1.0 && Dot(w, w) == 1.0
    ensures -1.0 <= Dot(v, w) <= 1.0
  {
    CauchySchwarz(v, w);
    SquareAtMostOne(Dot(v, w));
  }

  lemma {:induction false} DifferenceBounds(v: Vector, w: Vector, n: nat, k: nat)
    requires k < n <= |v| && n <= |w|
    ensures (v[k] - w[k]) * (v[k] - w[k]) <= DotTo(v, v, n) - 2.0 * DotTo(v, w, n) + DotTo(w, w, n)
  {
    var x, y := v[n - 1], w[n - 1];
    SquareNotNegative(x - y);
    assert (x - y) * (x - y) == x * x - 2.0 * (x * y) + y * y;
    if k < n - 1 {
      DifferenceBounds(v, w, n - 1, k);
    } else {
      SquareOfDifference(v, w, 1.0, n - 1);
    }
  }

  /** A full score means the same vector: only the prompt's own embedding reaches it. */
  lemma ScoreOneIffEqual(v: Vector, w: Vector)
    requires |v| == |w| && Dot(v, v) == 1.0 && Dot(w, w) == 1.0
    ensures Dot(v, w) == 1.0 <==> v == w
  {
    if Dot(v, w) == 1.0 {
      forall k | 0 <= k < |v| ensures v[k] == w[k] {
        DifferenceBounds(v, w, |v|, k);
        SquareNotPositive(v[k] - w[k]);
      }
    }
  }
}
