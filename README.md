# perf32vs64 in Dafny

A model of the computational core of `perf32vs64.cc`, a micro-benchmark that
times 32-bit against 64-bit unsigned integer arithmetic. With the clocks and the
console output stripped, the program is four summation kernels, two buffer
fillers, one-line wrappers that fix a constant to 7, two runners that fill a
buffer and then apply a kernel, and a driver that runs the eight combinations
of kernel and width in a fixed order. Each of these is sequential and
deterministic, and the model states its result exactly.

Files, one module each:

- `words.dfy` (`Words`): the element width (`W32` or `W64`, standing for the
  template argument `T`), 2^W, and `Wrap`, the value an unsigned variable holds
  after an assignment. Every `+=`, `*` and conversion from `int` in the source is
  written out as `Wrap`. Also the C `int` type of `size` (`CInt`) and how often a
  `for (int i = 0; i < size; i++)` loop runs (`Trips`, zero for a negative `size`).
- `sums.dfy` (`Sums`): unbounded specification sums (`Sum`, `Scaled`,
  `Quotients`, `RowSums`, `Flatten`) and their closed forms on the fillers'
  patterns (`Iota`, `FilledGrid`).
- `kernels.dfy` (`Kernels`): `add_numbers`, `add_mul_numbers`,
  `add_div_numbers` and `add_matrix` as methods with loops. Each loop is proved
  against the specification sum modulo 2^W. No kernel has a `modifies` clause,
  so none changes its input, just as the `const` parameters promise.
- `fillers.dfy` (`Fillers`): both `fill_array` overloads as in-place methods
  on `array<nat>` and `array2<nat>`.
- `bench.dfy` (`Bench`): the `bench_*` wrappers, `runbench`/`runbench2` reduced
  to "fill, then kernel", and the driver's sequence. Its `result =` values are
  proved to be 49995000, 349965000 and 7137858 in both widths.

Buffer elements are modelled as `nat`. The kernels' contracts hold for any
natural contents, so they also hold for every buffer of 32-bit or 64-bit words.
The fillers and all results are proved to be words of the width.

## Model

| member | source | states |
|---|---|---|
| `Words.Wrap` | perf32vs64.cc:18-20 | the value an unsigned `T` variable holds after being assigned `x` is a word of the width (below 2^W) |
| `Words.WrapWord` | perf32vs64.cc:65 | assigning a value that already fits the width stores it unchanged |
| `Words.WrapAdd` | perf32vs64.cc:18-20 | wrapping after each addition gives the same word as wrapping once at the end, whether one or both operands were wrapped first |
| `Words.WrapStep` | perf32vs64.cc:20 | one `sum += x` on a wrapping accumulator that holds `a` mod 2^W leaves it holding `a + x` mod 2^W |
| `Kernels.AccumulateStep` | perf32vs64.cc:19-20 | adding element `i` (wrapped or not) to an accumulator that holds the sum of the first `i` elements mod 2^W makes it hold the sum of the first `i + 1` |
| `Kernels.AccumulateProductStep` | perf32vs64.cc:46-47 | adding the wrapped product `s[i] * mul` to `mul` times the prefix sum mod 2^W gives `mul` times the next prefix sum mod 2^W |
| `Kernels.AccumulateQuotientStep` | perf32vs64.cc:55-56 | adding `s[i] / mul` to the sum of the earlier quotients mod 2^W gives the sum of the quotients one element further |
| `Kernels.AddNumbers` | perf32vs64.cc:15-22 | returns the sum of `v[0..size)` mod 2^W, and 0 when `size` is not positive; reads `v` without changing it |
| `Kernels.AddMulNumbers` | perf32vs64.cc:42-49 | returns the sum of the products `v[i] * mul` mod 2^W, and that equals `mul` times the plain sum mod 2^W |
| `Kernels.AddDivNumbers` | perf32vs64.cc:51-58 | for a nonzero divisor, returns the sum of the truncated quotients `v[i] / mul` mod 2^W |
| `Kernels.CellStep` | perf32vs64.cc:31-32 | one `sum[i] += v[i][j]` step: if `sum[i]` holds the total of row `i`'s first `j` cells mod 2^W, afterwards it holds the total of the first `j + 1` |
| `Kernels.AddRowTotal` | perf32vs64.cc:35-36 | one `tsum += sum[i]` step: if `tsum` holds the sum of the first `i` row totals mod 2^W and `sum[i]` holds row `i`'s total mod 2^W, afterwards `tsum` holds the sum of the first `i + 1` |
| `Kernels.AddMatrix` | perf32vs64.cc:25-38 | the first pass leaves each `sum[i]` equal to row `i`'s total mod 2^W (loop invariant); the returned total is the flat sum of all `size * size` cells mod 2^W |
| `Fillers.FillArray` | perf32vs64.cc:61-66 | afterwards `v[i] == i` for every `i < size`, and no element at or beyond `size` has changed |
| `Fillers.CellBelowSquare` | perf32vs64.cc:71-73 | the largest value the 2-D filler computes, `i + size * j` for `i, j < size`, is below `size * size` |
| `Fillers.FillMatrix` | perf32vs64.cc:68-74 | afterwards `v[i][j] == i + size * j` for all `i, j < size`, unchanged by the conversion to either width |
| `Sums.SumScaled` | perf32vs64.cc:47 | multiplying every element by `c` multiplies the sum by `c` |
| `Sums.SumConcat` | perf32vs64.cc:29-37 | the sum of a concatenation is the sum of the parts' sums |
| `Sums.SumRowSums` | perf32vs64.cc:28-37 | reducing row by row and then over the row totals gives the flat sum of all cells |
| `Sums.SumAffine` | perf32vs64.cc:73 | the sum of an arithmetic progression `a, a + b, ...` of `n` terms is `n * a + b * n * (n - 1) / 2` |
| `Sums.SumIota` | perf32vs64.cc:64-65 | `0 + 1 + ... + (n - 1) == n * (n - 1) / 2` |
| `Sums.SumQuotientsIota` | perf32vs64.cc:55-56 | the sum of `k / c` over `k < n` is `c * q * (q - 1) / 2 + r * q` where `n == q * c + r` |
| `Sums.FilledGridSum` | perf32vs64.cc:71-73 | the `n` by `n` filled grid sums to `n * n * (n * n - 1) / 2` |
| `Sums.FilledGridMatchesIota` | perf32vs64.cc:68-74 | the filled `n` by `n` grid has the same total as the indices below `n * n`, which is how the matrix benchmark's result equals the flat one's |
| `Bench.BenchAddNumbers` | perf32vs64.cc:79-89 | returns the sum of `v[0..size)` mod 2^W, for either width |
| `Bench.BenchAddMulNumbers` | perf32vs64.cc:91-103 | returns seven times the sum of `v[0..size)` mod 2^W |
| `Bench.BenchAddDivNumbers` | perf32vs64.cc:105-117 | returns the sum of the quotients `v[i] / 7` mod 2^W; the constant 7 meets the divisor's nonzero requirement |
| `Bench.BenchMatrix` | perf32vs64.cc:120-131 | returns the flat sum of the square matrix mod 2^W |
| `Bench.FilledResult` | perf32vs64.cc:137-141 | the closed-form result of each flat kernel on a filled buffer is a word of the width |
| `Bench.RunBench` | perf32vs64.cc:134-147 | filling and then running a flat kernel gives `n * (n - 1) / 2`, seven times that, or the quotient-sum closed form, each mod 2^W; the buffer ends filled and beyond `size` unchanged |
| `Bench.RunBench2` | perf32vs64.cc:149-162 | filling and then summing an `n` by `n` matrix gives what `add_numbers` gives on a filled buffer of `n * n` elements, `n * n * (n * n - 1) / 2` mod 2^W; the matrix ends holding `i + n * j` in every cell |
| `Bench.FlatResultsAt10000` | perf32vs64.cc:171-190 | on 10000 elements (and so on the 100 by 100 matrix) the kernels give 49995000, 349965000 and 7137858 in both widths |
| `Bench.RunAllBenchmarks` | perf32vs64.cc:165-191 | the eight `result =` values, in the driver's order, are 49995000, 49995000, 349965000, 349965000, 7137858, 7137858, 49995000, 49995000 |

## Left out

- The `rdtsc` cycle counter (perf32vs64.cc:8-13): a raw hardware read with no functional behaviour to state.
- The `chrono::steady_clock` timestamps and the elapsed-cycle and elapsed-time arithmetic in `runbench`/`runbench2`: they read external clocks. The claim that elapsed counts are never negative is therefore not modelled.
- The console output through `cout`: it is I/O only. The runners return the kernel's result instead of printing it, and the driver returns the eight results in printing order.
- The warm-up busy-wait on `time(NULL)` in `main`: it depends on the wall clock and its termination cannot be proved.
- The function-pointer and overload plumbing of `runbench`/`runbench2`: the kernel passed in is a value of `datatype Kernel = Add | AddMul | AddDiv`, and `runbench2` calls the matrix wrapper directly.
- The separate 32-bit and 64-bit overloads of each wrapper and the template instantiations of each kernel: one method takes the width as a parameter. The arithmetic at each width is still written out exactly.
- Kernels.AddMatrix: the row-accumulator array is local to the method, so "each `sum[i]` is row `i`'s total mod 2^W after the first pass" is stated and proved as a loop invariant, not as a postcondition.
- Fillers.FillMatrix: the source computes `i + size * j` as a C `int`, which is undefined behaviour once `size * size` exceeds 2^31. The model requires `size * size <= 2^31` instead of modelling that overflow.
