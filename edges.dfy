/** Edge-loss ratio between a raw edge map and a smoothed one (`cal_diff`).

    Both maps are unsigned 8-bit arrays of the same shape; an edge detector
    writes 0 (no edge) or 255 (edge). The ratio is the sum of the wrapped
    difference `mat - c_mat`, divided by 255, over the sum of `mat`, divided
    by 255. */
module EdgeLoss {

  /** One unsigned 8-bit sample. */
  type Byte = x: int | 0 <= x < 256

  /** A 2-D map of samples, row by row. */
  type EdgeMap = seq<seq<Byte>>

  predicate SameShape(a: EdgeMap, b: EdgeMap)
  {
    |a| == |b| && forall i :: 0 <= i < |a| ==> |a[i]| == |b[i]|
  }

  /** Edge-detector output: every sample is 0 or 255. */
  predicate Binary(m: EdgeMap)
  {
    forall i, j :: 0 <= i < |m| && 0 <= j < |m[i]| ==> m[i][j] == 0 || m[i][j] == 255
  }

  /** Every sample is 0. */
  predicate AllZero(m: EdgeMap)
  {
    forall i, j :: 0 <= i < |m| && 0 <= j < |m[i]| ==> m[i][j] == 0
  }

  /** Every edge of `c` is an edge of `m`. */
  predicate EdgesWithin(c: EdgeMap, m: EdgeMap)
    requires SameShape(c, m)
  {
    forall i, j :: 0 <= i < |c| && 0 <= j < |c[i]| && c[i][j] == 255 ==> m[i][j] == 255
  }

  /** The sum of a row of samples. */
  function RowSum(r: seq<Byte>): (t: int)
    ensures 0 <= t <= 255 * |r|
  {
    if r == [] then 0 else RowSum(r[..|r| - 1]) + r[|r| - 1]
  }

  /** The sum of every sample of a map. */
  function Sum(m: EdgeMap): (t: int)
    ensures t >= 0
  {
    if m == [] then 0 else Sum(m[..|m| - 1]) + RowSum(m[|m| - 1])
  }

  /** Subtraction of two uint8 samples, which wraps modulo 256. */
  function ByteSub(a: Byte, b: Byte): (d: Byte)
    ensures a >= b ==> d == a - b
    ensures a < b ==> d == a - b + 256
  {
    (a - b) % 256
  }

  function DiffRow(a: seq<Byte>, b: seq<Byte>): seq<Byte>
    requires |a| == |b|
  {
    seq(|a|, j requires 0 <= j < |a| => ByteSub(a[j], b[j]))
  }

  /** The array expression `mat - c_mat`: element-wise uint8 subtraction. */
  function Diff(mat: EdgeMap, cMat: EdgeMap): (d: EdgeMap)
    requires SameShape(mat, cMat)
    ensures SameShape(d, mat)
    ensures forall i, j :: 0 <= i < |mat| && 0 <= j < |mat[i]| ==>
      d[i][j] == ByteSub(mat[i][j], cMat[i][j])
  {
    seq(|mat|, i requires 0 <= i < |mat| => DiffRow(mat[i], cMat[i]))
  }

  /** A sum of samples divided by 255, as `cal_diff` scales both sums. */
  function Scaled(total: int): real
  {
    total as real / 255.0
  }

  /** What `cal_diff(mat, c_mat)` returns. */
  function LossRatio(mat: EdgeMap, cMat: EdgeMap): real
    requires SameShape(mat, cMat) && Sum(mat) != 0
  {
    Scaled(Sum(Diff(mat, cMat))) / Scaled(Sum(mat))
  }

  /** The ratio is never negative: no cell of the wrapped difference is. */
  lemma LossRatioNonnegative(mat: EdgeMap, cMat: EdgeMap)
    requires SameShape(mat, cMat) && Sum(mat) != 0
    ensures LossRatio(mat, cMat) >= 0.0
  {
  }

  /** The nested loops that add up every sample of a map. */
  method SumEntries(m: EdgeMap) returns (total: int)
    ensures total == Sum(m)
  {
    total := 0;
    for i := 0 to |m|
      invariant total == Sum(m[..i])
    {
      total := AddRow(total, m[i]);
      assert m[..i + 1][..i] == m[..i];
    }
    assert m[..|m|] == m;
  }

  /** The inner loop of `SumEntries`: adds the samples of one row to the
      running total. */
  method AddRow(acc: int, r: seq<Byte>) returns (total: int)
    ensures total == acc + RowSum(r)
  {
    total := acc;
    for j := 0 to |r|
      invariant total == acc + RowSum(r[..j])
    {
      total := total + r[j];
      assert r[..j + 1][..j] == r[..j];
    }
    assert r[..|r|] == r;
  }

  /** `cal_diff`: both sums by loops, each divided by 255, then their ratio.
      There is no guard: an edge map with no edge divides by zero. */
  method CalDiff(mat: EdgeMap, cMat: EdgeMap) returns (result: real)
    requires SameShape(mat, cMat)
    requires Sum(mat) != 0
    ensures result == LossRatio(mat, cMat)
  {
    var sumMat := SumEntries(mat);
    var scaledMat := Scaled(sumMat);
    var diff := Diff(mat, cMat);
    var sumDiff := SumEntries(diff);
    var scaledDiff := Scaled(sumDiff);
    result := scaledDiff / scaledMat;
  }

  /** The number of cells where `a` holds `x` and `b` holds `y`. */
  function CountRow(a: seq<Byte>, b: seq<Byte>, x: Byte, y: Byte): nat
    requires |a| == |b|
  {
    if a == [] then 0
    else CountRow(a[..|a| - 1], b[..|b| - 1], x, y) + (if a[|a| - 1] == x && b[|b| - 1] == y then 1 else 0)
  }

  function Count(a: EdgeMap, b: EdgeMap, x: Byte, y: Byte): nat
    requires SameShape(a, b)
  {
    if a == [] then 0
    else Count(a[..|a| - 1], b[..|b| - 1], x, y) + CountRow(a[|a| - 1], b[|b| - 1], x, y)
  }

  /** The number of edges of a map. */
  function Edges(m: EdgeMap): nat
  {
    Count(m, m, 255, 255)
  }

  /** For 0/255 samples, a cell of the difference is 255 where the edge is only
      in `mat`, 1 where it is only in `c_mat`, and 0 otherwise. */
  lemma BinaryCell(a: Byte, b: Byte)
    requires (a == 0 || a == 255) && (b == 0 || b == 255)
    ensures ByteSub(a, b) == if a == 255 && b == 0 then 255 else if a == 0 && b == 255 then 1 else 0
  {
  }

  /** For an edge map, the sum divided by 255 is the number of edges. */
  lemma {:induction false} BinarySumCountsEdges(m: EdgeMap)
    requires Binary(m)
    ensures Sum(m) == 255 * Edges(m)
    ensures Scaled(Sum(m)) == Edges(m) as real
  {
    if m != [] {
      var n := |m| - 1;
      BinarySumCountsEdges(m[..n]);
      BinaryRowCountsEdges(m[n]);
    }
  }

  lemma {:induction false} BinaryRowCountsEdges(r: seq<Byte>)
    requires forall j :: 0 <= j < |r| ==> r[j] == 0 || r[j] == 255
    ensures RowSum(r) == 255 * CountRow(r, r, 255, 255)
  {
    if r != [] {
      BinaryRowCountsEdges(r[..|r| - 1]);
    }
  }

  /** For two edge maps, the summed difference is 255 per lost edge plus 1 per
      edge that only the smoothed map has. */
  lemma {:induction false} BinaryDiffSum(mat: EdgeMap, cMat: EdgeMap)
    requires SameShape(mat, cMat) && Binary(mat) && Binary(cMat)
    ensures Sum(Diff(mat, cMat)) == 255 * Count(mat, cMat, 255, 0) + Count(mat, cMat, 0, 255)
  {
    if mat != [] {
      var n := |mat| - 1;
      assert Diff(mat, cMat)[..n] == Diff(mat[..n], cMat[..n]);
      BinaryDiffSum(mat[..n], cMat[..n]);
      BinaryRowDiffSum(mat[n], cMat[n]);
    }
  }

  lemma {:induction false} BinaryRowDiffSum(a: seq<Byte>, b: seq<Byte>)
    requires |a| == |b|
    requires forall j :: 0 <= j < |a| ==> (a[j] == 0 || a[j] == 255) && (b[j] == 0 || b[j] == 255)
    ensures RowSum(DiffRow(a, b)) == 255 * CountRow(a, b, 255, 0) + CountRow(a, b, 0, 255)
  {
    if a != [] {
      var n := |a| - 1;
      assert DiffRow(a, b)[..n] == DiffRow(a[..n], b[..n]);
      BinaryRowDiffSum(a[..n], b[..n]);
      BinaryCell(a[n], b[n]);
    }
  }

  /** For two edge maps, the ratio is the share of lost edges plus 1/255 per
      edge that appeared only after smoothing. */
  lemma BinaryLossRatio(mat: EdgeMap, cMat: EdgeMap)
    requires SameShape(mat, cMat) && Binary(mat) && Binary(cMat) && Sum(mat) != 0
    ensures Edges(mat) > 0
    ensures LossRatio(mat, cMat)
      == (Count(mat, cMat, 255, 0) as real + Count(mat, cMat, 0, 255) as real / 255.0) / Edges(mat) as real
  {
    BinarySumCountsEdges(mat);
    BinaryDiffSum(mat, cMat);
  }

  /** A smoothed map identical to the raw one loses nothing: the ratio is 0. */
  lemma UnchangedLosesNothing(mat: EdgeMap)
    requires Sum(mat) != 0
    ensures LossRatio(mat, mat) == 0.0
  {
    assert AllZero(Diff(mat, mat));
    ZeroSumAllZero(Diff(mat, mat));
  }

  /** The ratio is 0 exactly when the smoothed map equals the raw one: a
      wrapped difference cell is 0 only for equal samples. */
  lemma NoLossIffUnchanged(mat: EdgeMap, cMat: EdgeMap)
    requires SameShape(mat, cMat) && Sum(mat) != 0
    ensures LossRatio(mat, cMat) == 0.0 <==> cMat == mat
  {
    if cMat == mat {
      UnchangedLosesNothing(mat);
    }
    if LossRatio(mat, cMat) == 0.0 {
      var d := Diff(mat, cMat);
      assert Sum(d) == 0 by {
        if Sum(d) != 0 {
          PositiveScaledRatio(Sum(d), Sum(mat));
        }
      }
      ZeroSumAllZero(d);
      forall i | 0 <= i < |mat|
        ensures cMat[i] == mat[i]
      {
        forall j | 0 <= j < |mat[i]|
          ensures cMat[i][j] == mat[i][j]
        {
          assert d[i][j] == ByteSub(mat[i][j], cMat[i][j]);
        }
      }
    }
  }

  lemma PositiveScaledRatio(x: int, y: int)
    requires x > 0 && y > 0
    ensures Scaled(x) / Scaled(y) > 0.0
  {
  }

  /** A map sums to 0 exactly when every sample is 0. */
  lemma {:induction false} ZeroSumAllZero(m: EdgeMap)
    ensures Sum(m) == 0 <==> AllZero(m)
  {
    if m != [] {
      var n := |m| - 1;
      ZeroSumAllZero(m[..n]);
      ZeroRowSumIff(m[n]);
      assert forall i :: 0 <= i < n ==> m[..n][i] == m[i];
    }
  }

  lemma {:induction false} ZeroRowSumIff(r: seq<Byte>)
    ensures RowSum(r) == 0 <==> forall j :: 0 <= j < |r| ==> r[j] == 0
  {
    if r != [] {
      var n := |r| - 1;
      ZeroRowSumIff(r[..n]);
      assert forall j :: 0 <= j < n ==> r[..n][j] == r[j];
    }
  }

  /** A smoothed map without any edge loses everything: the ratio is 1. */
  lemma BlankLosesEverything(mat: EdgeMap, cMat: EdgeMap)
    requires SameShape(mat, cMat) && AllZero(cMat) && Sum(mat) != 0
    ensures LossRatio(mat, cMat) == 1.0
  {
    SubtractZero(mat, cMat);
    SelfRatio(Scaled(Sum(mat)));
  }

  lemma SelfRatio(x: real)
    requires x != 0.0
    ensures x / x == 1.0
  {
  }

  /** Subtracting an all-zero map changes nothing. */
  lemma SubtractZero(mat: EdgeMap, cMat: EdgeMap)
    requires SameShape(mat, cMat) && AllZero(cMat)
    ensures Diff(mat, cMat) == mat
  {
    var d := Diff(mat, cMat);
    forall i | 0 <= i < |mat|
      ensures d[i] == mat[i]
    {
      assert forall j :: 0 <= j < |mat[i]| ==> d[i][j] == mat[i][j];
    }
  }

  /** When the smoothed map keeps only edges of the raw one, no cell wraps
      and the ratio lies in [0, 1]. */
  lemma KeptEdgesBoundRatio(mat: EdgeMap, cMat: EdgeMap)
    requires SameShape(mat, cMat) && Binary(cMat) && EdgesWithin(cMat, mat) && Sum(mat) != 0
    ensures forall i, j :: 0 <= i < |mat| && 0 <= j < |mat[i]| ==>
      Diff(mat, cMat)[i][j] == mat[i][j] - cMat[i][j]
    ensures 0.0 <= LossRatio(mat, cMat) <= 1.0
  {
    var d := Diff(mat, cMat);
    forall i, j | 0 <= i < |mat| && 0 <= j < |mat[i]|
      ensures d[i][j] == mat[i][j] - cMat[i][j]
    {
      assert d[i][j] == ByteSub(mat[i][j], cMat[i][j]);
    }
    SumMonotone(d, mat);
    UnitRatio(Sum(d), Sum(mat));
  }

  lemma UnitRatio(x: int, y: int)
    requires 0 <= x <= y && y > 0
    ensures 0.0 <= Scaled(x) / Scaled(y) <= 1.0
  {
  }

  /** Pointwise smaller maps have smaller sums. */
  lemma {:induction false} SumMonotone(a: EdgeMap, b: EdgeMap)
    requires SameShape(a, b)
    requires forall i, j :: 0 <= i < |a| && 0 <= j < |a[i]| ==> a[i][j] <= b[i][j]
    ensures Sum(a) <= Sum(b)
  {
    if a != [] {
      var n := |a| - 1;
      SumMonotone(a[..n], b[..n]);
      RowSumMonotone(a[n], b[n]);
    }
  }

  lemma {:induction false} RowSumMonotone(a: seq<Byte>, b: seq<Byte>)
    requires |a| == |b|
    requires forall j :: 0 <= j < |a| ==> a[j] <= b[j]
    ensures RowSum(a) <= RowSum(b)
  {
    if a != [] {
      RowSumMonotone(a[..|a| - 1], b[..|b| - 1]);
    }
  }
}
