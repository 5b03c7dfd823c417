/**
 * The four summation kernels of the benchmark. Each is one method for both
 * widths: the width `w` stands for the template argument T, and every `+=`,
 * `*` and `/` on T is written out with its wrap-around.
 *
 * None of them modifies its input (the C++ parameters are `const`): no method
 * here has a `modifies` clause, so each leaves every array as it found it.
 */
module Kernels {

  import opened Words
  import opened Sums

  /**
   * One `sum += x` step of a kernel loop, where `x` is the next element `s[i]`
   * or that element wrapped: if the accumulator holds the sum of `s[..i]`
   * modulo 2^W, afterwards it holds the sum of `s[..i + 1]` modulo 2^W.
   */
  lemma AccumulateStep(w: Width, s: seq<int>, i: nat, acc: int, x: int)
    requires i < |s| && acc == Wrap(w, Sum(s[..i]))
    requires x == s[i] || x == Wrap(w, s[i])
    ensures Wrap(w, acc + x) == Wrap(w, Sum(s[..i + 1]))
  {
    SumPrefix(s, i);
    WrapStep(w, acc, Sum(s[..i]), s[i], Sum(s[..i + 1]));
  }

  /** One `sum += v[i] * mul` step, with the product wrapped as T arithmetic does. */
  lemma AccumulateProductStep(w: Width, s: seq<int>, i: nat, mul: int, acc: int)
    requires i < |s| && acc == Wrap(w, mul * Sum(s[..i]))
    ensures Wrap(w, acc + Wrap(w, s[i] * mul)) == Wrap(w, mul * Sum(s[..i + 1]))
  {
    ScaledSumStep(s[..i + 1], mul);
    assert s[..i + 1][..i] == s[..i];
    WrapStep(w, acc, mul * Sum(s[..i]), s[i] * mul, mul * Sum(s[..i + 1]));
  }

  /** One `sum += v[i] / mul` step. */
  lemma AccumulateQuotientStep(w: Width, s: seq<nat>, i: nat, mul: nat, acc: int)
    requires mul != 0 && i < |s| && acc == Wrap(w, Sum(Quotients(s[..i], mul)))
    ensures Wrap(w, acc + s[i] / mul) == Wrap(w, Sum(Quotients(s[..i + 1], mul)))
  {
    QuotientsPrefix(s, mul, i);
    WrapStep(w, acc, Sum(Quotients(s[..i], mul)), s[i] / mul, Sum(Quotients(s[..i + 1], mul)));
  }

  /** `add_numbers`: the sum of `v[0..size)` modulo 2^W. */
  method AddNumbers(w: Width, v: array<nat>, size: CInt) returns (sum: nat)
    requires size <= v.Length
    ensures sum == Wrap(w, Sum(v[..Trips(size)]))
    ensures size <= 0 ==> sum == 0
  {
    sum := 0;
    var i: int := 0;
    while i < size
      invariant 0 <= i <= Trips(size)
      invariant sum == Wrap(w, Sum(v[..i]))
    {
      AccumulateStep(w, v[..], i, sum, v[i]);
      sum := Wrap(w, sum + v[i]);
      i := i + 1;
    }
  }

  /**
   * `add_mul_numbers`: the sum of the products `v[i] * mul` modulo 2^W, which
   * is `mul` times the plain sum modulo 2^W.
   */
  method AddMulNumbers(w: Width, v: array<nat>, mul: nat, size: CInt) returns (sum: nat)
    requires size <= v.Length
    ensures sum == Wrap(w, Sum(Scaled(v[..Trips(size)], mul)))
    ensures sum == Wrap(w, mul * Sum(v[..Trips(size)]))
  {
    sum := 0;
    var i: int := 0;
    while i < size
      invariant 0 <= i <= Trips(size)
      invariant sum == Wrap(w, mul * Sum(v[..i]))
    {
      AccumulateProductStep(w, v[..], i, mul, sum);
      sum := Wrap(w, sum + Wrap(w, v[i] * mul));
      i := i + 1;
    }
    SumScaled(v[..i], mul);
  }

  /**
   * `add_div_numbers`: the sum of the truncated quotients `v[i] / mul` modulo
   * 2^W. The divisor must be nonzero; the benchmark always passes 7.
   */
  method AddDivNumbers(w: Width, v: array<nat>, mul: nat, size: CInt) returns (sum: nat)
    requires mul != 0
    requires size <= v.Length
    ensures sum == Wrap(w, Sum(Quotients(v[..Trips(size)], mul)))
  {
    sum := 0;
    var i: int := 0;
    while i < size
      invariant 0 <= i <= Trips(size)
      invariant sum == Wrap(w, Sum(Quotients(v[..i], mul)))
    {
      AccumulateQuotientStep(w, v[..], i, mul, sum);
      sum := Wrap(w, sum + v[i] / mul);
      i := i + 1;
    }
  }

  /** Row `i` of a matrix as a sequence: `Row(v, i)[j] == v[i, j]`. */
  ghost function Row(v: array2<nat>, i: nat): (r: seq<int>)
    requires i < v.Length0
    reads v
    ensures |r| == v.Length1
  {
    seq(v.Length1, j requires 0 <= j < v.Length1 reads v => v[i, j] as int)
  }

  /** The cells of a matrix as rows of values: `Cells(v)[i][j] == v[i, j]`. */
  ghost function Cells(v: array2<nat>): (g: seq<seq<int>>)
    reads v
    ensures |g| == v.Length0
  {
    seq(v.Length0, i requires 0 <= i < v.Length0 reads v => Row(v, i))
  }

  /** One `sum[i] += v[i][j]` step of the first pass of `add_matrix`. */
  lemma CellStep(w: Width, v: array2<nat>, g: seq<seq<int>>, i: nat, j: nat, acc: int)
    requires g == Cells(v) && i < v.Length0 && j < v.Length1
    requires acc == Wrap(w, Sum(g[i][..j]))
    ensures Wrap(w, acc + v[i, j]) == Wrap(w, Sum(g[i][..j + 1]))
  {
    AccumulateStep(w, g[i], j, acc, v[i, j]);
  }

  /** One `tsum += sum[i]` step of the second pass, where `sum[i]` holds row `i`'s total modulo 2^W. */
  lemma AddRowTotal(w: Width, g: seq<seq<int>>, i: nat, acc: int, x: int)
    requires i < |g| && acc == Wrap(w, Sum(RowSums(g)[..i]))
    requires x == Wrap(w, RowSums(g)[i])
    ensures Wrap(w, acc + x) == Wrap(w, Sum(RowSums(g)[..i + 1]))
  {
    AccumulateStep(w, RowSums(g), i, acc, x);
  }

  /**
   * `add_matrix`: a two-pass reduction of a square matrix. The first pass
   * leaves in `sum[i]` the total of row `i` modulo 2^W; the second adds those
   * up. The result is the flat sum of all cells modulo 2^W.
   */
  method AddMatrix(w: Width, v: array2<nat>) returns (tsum: nat)
    requires v.Length0 == v.Length1
    ensures tsum == Wrap(w, Sum(Flatten(Cells(v))))
  {
    var size := v.Length0;
    ghost var g := Cells(v);
    ghost var totals := RowSums(g);
    var sum := new nat[size](_ => 0);
    for i := 0 to size
      invariant forall k :: 0 <= k < i ==> sum[k] == Wrap(w, totals[k])
      invariant forall k :: i <= k < size ==> sum[k] == 0
    {
      label Row:
      for j := 0 to size
        invariant sum[i] == Wrap(w, Sum(g[i][..j]))
        invariant forall k :: 0 <= k < size && k != i ==> sum[k] == old@Row(sum[k])
      {
        CellStep(w, v, g, i, j, sum[i]);
        sum[i] := Wrap(w, sum[i] + v[i, j]);
      }
      assert g[i][..size] == g[i];
    }
    tsum := 0;
    for i := 0 to size
      invariant tsum == Wrap(w, Sum(totals[..i]))
      invariant forall k :: 0 <= k < size ==> sum[k] == Wrap(w, totals[k])
    {
      AddRowTotal(w, g, i, tsum, sum[i]);
      tsum := Wrap(w, tsum + sum[i]);
    }
    assert totals[..size] == totals;
    SumRowSums(g);
    assert Cells(v) == g;
  }
}
