/**
 * The benchmark's wrappers and runners with the timing and printing taken
 * away: each `bench_*` wrapper fixes the constant to 7, each runner fills the
 * buffer and applies one kernel, and the driver runs all eight combinations
 * of kernel and width in their fixed order.
 */
module Bench {

  import opened Words
  import opened Sums
  import opened Kernels
  import opened Fillers

  /** The constant `c` the wrappers pass to the multiply and divide kernels. */
  const C: nat := 7

  /** `bench_add_numbers`, for either width. */
  method BenchAddNumbers(w: Width, v: array<nat>, size: CInt) returns (res: nat)
    requires size <= v.Length
    ensures res == Wrap(w, Sum(v[..Trips(size)]))
  {
    res := AddNumbers(w, v, size);
  }

  /** `bench_add_mul_numbers`: seven times the sum, modulo 2^W. */
  method BenchAddMulNumbers(w: Width, v: array<nat>, size: CInt) returns (res: nat)
    requires size <= v.Length
    ensures res == Wrap(w, C * Sum(v[..Trips(size)]))
  {
    res := AddMulNumbers(w, v, C, size);
  }

  /** `bench_add_div_numbers`: the sum of the quotients by seven, modulo 2^W. */
  method BenchAddDivNumbers(w: Width, v: array<nat>, size: CInt) returns (res: nat)
    requires size <= v.Length
    ensures res == Wrap(w, Sum(Quotients(v[..Trips(size)], C)))
  {
    res := AddDivNumbers(w, v, C, size);
  }

  /** `bench_matrix`, for either width. */
  method BenchMatrix(w: Width, v: array2<nat>) returns (res: nat)
    requires v.Length0 == v.Length1
    ensures res == Wrap(w, Sum(Flatten(Cells(v))))
  {
    res := AddMatrix(w, v);
  }

  /** The flat-buffer wrappers `runbench` is called with. */
  datatype Kernel = Add | AddMul | AddDiv

  /**
   * What a flat-buffer kernel returns on the buffer the 1-D filler leaves:
   * with `v[i] == i`, the closed forms of the sum, seven times the sum and
   * the sum of the quotients by seven, each modulo 2^W.
   */
  function FilledResult(w: Width, kernel: Kernel, n: nat): (r: nat)
    ensures IsWord(w, r)
  {
    match kernel
    case Add => Wrap(w, n * (n - 1) / 2)
    case AddMul => Wrap(w, C * (n * (n - 1) / 2))
    case AddDiv => Wrap(w, QuotientSumOfIota(n, C))
  }

  /**
   * `runbench` without the clocks and the output: fill the buffer, then apply
   * the kernel. The result depends only on `size` and the width.
   */
  method RunBench(w: Width, kernel: Kernel, v: array<nat>, size: CInt) returns (res: nat)
    requires size <= v.Length
    modifies v
    ensures res == FilledResult(w, kernel, Trips(size))
    ensures forall k :: 0 <= k < Trips(size) ==> v[k] == k
    ensures forall k :: Trips(size) <= k < v.Length ==> v[k] == old(v[k])
  {
    FillArray(w, v, size);
    var n := Trips(size);
    assert v[..n] == Iota(n);
    SumIota(n);
    match kernel
    case Add =>
      res := BenchAddNumbers(w, v, size);
    case AddMul =>
      res := BenchAddMulNumbers(w, v, size);
    case AddDiv =>
      res := BenchAddDivNumbers(w, v, size);
      SumQuotientsIota(n, C);
  }

  /**
   * `runbench2` without the clocks and the output: fill the matrix, then sum
   * it. The filled `n` by `n` matrix holds each number below `n * n` once, so
   * the result is what `add_numbers` gives on a filled buffer of `n * n`.
   */
  method RunBench2(w: Width, v: array2<nat>) returns (res: nat)
    requires v.Length0 == v.Length1
    requires v.Length0 * v.Length0 <= 0x8000_0000
    modifies v
    ensures res == FilledResult(w, Add, v.Length0 * v.Length0)
    ensures forall i, j :: 0 <= i < v.Length0 && 0 <= j < v.Length1 ==> v[i, j] == i + v.Length0 * j
  {
    FillMatrix(w, v);
    var n := v.Length0;
    forall i | 0 <= i < n
      ensures Cells(v)[i] == FilledGrid(n)[i]
    {
      assert Row(v, i) == Affine(n, i, n);
    }
    assert Cells(v) == FilledGrid(n);
    res := BenchMatrix(w, v);
    FilledGridMatchesIota(n);
    SumIota(n * n);
  }

  /**
   * The flat benchmarks on 10000 elements, and so the 100 by 100 matrix
   * benchmark, give the same result in both widths: no total reaches 2^32.
   */
  lemma FlatResultsAt10000(w: Width)
    ensures FilledResult(w, Add, 10000) == 49995000
    ensures FilledResult(w, AddMul, 10000) == 349965000
    ensures FilledResult(w, AddDiv, 10000) == 7137858
  {
    assert 10000 * (10000 - 1) / 2 == 49995000;
    assert 10000 / C == 1428 && 10000 % C == 4;
    assert QuotientSumOfIota(10000, C) == 7 * (1428 * 1427 / 2) + 4 * 1428 == 7137858;
    WrapWord(w, 49995000);
    WrapWord(w, 349965000);
    WrapWord(w, 7137858);
  }

  /**
   * The driver's fixed sequence without the warm-up: a 10000-element buffer
   * and a 100 by 100 matrix per width, and the eight `result =` values in the
   * order Add 32, Add 64, Add Mul 32, Add Mul 64, Add Div 32, Add Div 64,
   * Matrix 32, Matrix 64. No total wraps, so both widths agree.
   */
  method RunAllBenchmarks() returns (results: seq<nat>)
    ensures results == [49995000, 49995000, 349965000, 349965000, 7137858, 7137858, 49995000, 49995000]
  {
    var vsize: CInt := 10000;
    var v32 := new nat[vsize];
    var v64 := new nat[vsize];
    var m32 := new nat[100, 100];
    var m64 := new nat[100, 100];

    var add32 := RunBench(W32, Add, v32, vsize);
    var add64 := RunBench(W64, Add, v64, vsize);
    var mul32 := RunBench(W32, AddMul, v32, vsize);
    var mul64 := RunBench(W64, AddMul, v64, vsize);
    var div32 := RunBench(W32, AddDiv, v32, vsize);
    var div64 := RunBench(W64, AddDiv, v64, vsize);
    var matrix32 := RunBench2(W32, m32);
    var matrix64 := RunBench2(W64, m64);
    FlatResultsAt10000(W32);
    FlatResultsAt10000(W64);
    results := [add32, add64, mul32, mul64, div32, div64, matrix32, matrix64];
  }
}
