/**
 * Mathematical (unbounded) sums that specify the summation kernels, and the
 * closed forms they take on the patterns the fillers write.
 */
module Sums {

  import Words

  /** The plain sum of a sequence, accumulated from the front as the kernels do. */
  function Sum(s: seq<int>): int {
    if s == [] then 0 else Sum(s[..|s| - 1]) + s[|s| - 1]
  }

  /** Summing one more element adds exactly that element. */
  lemma SumSnoc(s: seq<int>, x: int)
    ensures Sum(s + [x]) == Sum(s) + x
  {
    assert (s + [x])[..|s|] == s;
  }

  /** The prefix sum over `s[..i + 1]` extends the one over `s[..i]` by `s[i]`. */
  lemma SumPrefix(s: seq<int>, i: nat)
    requires i < |s|
    ensures Sum(s[..i + 1]) == Sum(s[..i]) + s[i]
  {
    assert s[..i + 1] == s[..i] + [s[i]];
    SumSnoc(s[..i], s[i]);
  }

  /** The sum of a concatenation is the sum of the sums of its parts. */
  lemma {:induction false} SumConcat(a: seq<int>, b: seq<int>)
    ensures Sum(a + b) == Sum(a) + Sum(b)
    decreases |b|
  {
    if b == [] {
      assert a + b == a;
    } else {
      var b', x := b[..|b| - 1], b[|b| - 1];
      assert b == b' + [x];
      assert a + b == (a + b') + [x];
      SumConcat(a, b');
      SumSnoc(a + b', x);
      SumSnoc(b', x);
    }
  }

  /** Every element times the constant `c`. */
  function Scaled(s: seq<int>, c: int): (r: seq<int>)
    ensures |r| == |s|
  {
    seq(|s|, k requires 0 <= k < |s| => s[k] * c)
  }

  /** Multiplying every element by `c` multiplies the sum by `c`. */
  lemma {:induction false} SumScaled(s: seq<int>, c: int)
    ensures Sum(Scaled(s, c)) == c * Sum(s)
    decreases |s|
  {
    if s != [] {
      var s', x := s[..|s| - 1], s[|s| - 1];
      assert Scaled(s, c)[..|s| - 1] == Scaled(s', c);
      SumScaled(s', c);
      assert c * Sum(s) == c * Sum(s') + c * x;
    }
  }

  /** `c` times a sum grows by `c` times each element added. */
  lemma ScaledSumStep(s: seq<int>, c: int)
    requires s != []
    ensures c * Sum(s) == c * Sum(s[..|s| - 1]) + s[|s| - 1] * c
  {
    var t, x := Sum(s[..|s| - 1]), s[|s| - 1];
    assert Sum(s) == t + x;
    MulDistributes(c, t, x);
  }

  /** `c * (t + x) == c * t + x * c`, kept apart from `Sum` so the solver sees only integers. */
  lemma MulDistributes(c: int, t: int, x: int)
    ensures c * (t + x) == c * t + x * c
  {
  }

  /** Every element divided by `c`, truncating as unsigned division does. */
  function Quotients(s: seq<nat>, c: nat): (r: seq<nat>)
    requires c != 0
    ensures |r| == |s|
  {
    seq(|s|, k requires 0 <= k < |s| => s[k] / c)
  }

  /** Dividing by `c` one more element appends that element's quotient. */
  lemma QuotientsPrefix(s: seq<nat>, c: nat, i: nat)
    requires c != 0 && i < |s|
    ensures Sum(Quotients(s[..i + 1], c)) == Sum(Quotients(s[..i], c)) + s[i] / c
  {
    assert Quotients(s[..i + 1], c) == Quotients(s[..i], c) + [s[i] / c];
    SumSnoc(Quotients(s[..i], c), s[i] / c);
  }

  /** The indices `0, 1, ..., n - 1`. */
  function Iota(n: nat): (r: seq<nat>)
    ensures |r| == n
  {
    seq(n, k requires 0 <= k < n => k)
  }

  /** The arithmetic progression `a, a + b, ..., a + b * (n - 1)`. */
  function Affine(n: nat, a: int, b: int): (r: seq<int>)
    ensures |r| == n
  {
    seq(n, k requires 0 <= k < n => a + b * k)
  }

  /** The arithmetic of one step of `SumAffine`. */
  lemma AffineStep(n: nat, a: int, b: int, t: int)
    requires n > 0 && 2 * t == 2 * (n - 1) * a + b * (n - 1) * (n - 2)
    ensures 2 * (t + (a + b * (n - 1))) == 2 * n * a + b * n * (n - 1)
  {
    assert b * n * (n - 1) == b * (n - 1) * (n - 2) + 2 * b * (n - 1);
  }

  /** Gauss's formula for an arithmetic progression, kept free of division. */
  lemma {:induction false} SumAffine(n: nat, a: int, b: int)
    ensures 2 * Sum(Affine(n, a, b)) == 2 * n * a + b * n * (n - 1)
    decreases n
  {
    if n > 0 {
      assert Affine(n, a, b) == Affine(n - 1, a, b) + [a + b * (n - 1)];
      SumSnoc(Affine(n - 1, a, b), a + b * (n - 1));
      SumAffine(n - 1, a, b);
      AffineStep(n, a, b, Sum(Affine(n - 1, a, b)));
    }
  }

  /** `0 + 1 + ... + (n - 1) == n * (n - 1) / 2`. */
  lemma SumIota(n: nat)
    ensures 2 * Sum(Iota(n)) == n * (n - 1)
    ensures Sum(Iota(n)) == n * (n - 1) / 2
  {
    assert Iota(n) == Affine(n, 0, 1);
    SumAffine(n, 0, 1);
  }

  /**
   * The sum of the truncated quotients `k / c` for `k < n`: with `n == q * c + r`,
   * every quotient below `q` occurs `c` times and `q` itself occurs `r` times.
   */
  function QuotientSumOfIota(n: nat, c: nat): int
    requires c != 0
  {
    c * ((n / c) * (n / c - 1) / 2) + (n % c) * (n / c)
  }

  /** The arithmetic of one step of `SumQuotientsIotaBy` within one block of `c` indices. */
  lemma QuotientStepSameBlock(c: nat, q: int, r: nat, t: int)
    requires 2 * t == c * q * (q - 1) + 2 * r * q
    ensures 2 * (t + q) == c * q * (q - 1) + 2 * (r + 1) * q
  {
    assert 2 * (r + 1) * q == 2 * r * q + 2 * q;
  }

  /** The arithmetic of one step of `SumQuotientsIotaBy` that completes a block of `c` indices. */
  lemma QuotientStepNewBlock(c: nat, q: int, t: int)
    requires c != 0 && 2 * t == c * q * (q - 1) + 2 * (c - 1) * q
    ensures 2 * (t + q) == c * (q + 1) * q
  {
    assert c * (q + 1) * q == c * q * (q - 1) + 2 * c * q;
    assert 2 * (c - 1) * q == 2 * c * q - 2 * q;
  }

  /** `SumQuotientsIota` for an explicit quotient `q` and remainder `r` of `n` by `c`. */
  lemma {:induction false} SumQuotientsIotaBy(n: nat, c: nat, q: nat, r: nat)
    requires c != 0 && r < c && n == q * c + r
    ensures 2 * Sum(Quotients(Iota(n), c)) == c * q * (q - 1) + 2 * r * q
    decreases n
  {
    if n > 0 {
      var p := n - 1;
      assert Iota(n) == Iota(p) + [p];
      assert Quotients(Iota(n), c) == Quotients(Iota(p), c) + [p / c];
      SumSnoc(Quotients(Iota(p), c), p / c);
      if r > 0 {
        Words.DivModUnique(p, q, r - 1, c);
        SumQuotientsIotaBy(p, c, q, r - 1);
        QuotientStepSameBlock(c, q, r - 1, Sum(Quotients(Iota(p), c)));
      } else {
        assert q > 0;
        assert p == (q - 1) * c + (c - 1);
        Words.DivModUnique(p, q - 1, c - 1, c);
        SumQuotientsIotaBy(p, c, q - 1, c - 1);
        QuotientStepNewBlock(c, q - 1, Sum(Quotients(Iota(p), c)));
      }
    }
  }

  /** The arithmetic that halves the closed form of `SumQuotientsIotaBy`. */
  lemma HalveQuotientSum(c: nat, q: int, r: int, h: int, t: int)
    requires 2 * h == q * (q - 1) && 2 * t == c * q * (q - 1) + 2 * r * q
    ensures q * (q - 1) / 2 == h && t == c * h + r * q
  {
    Words.DivModUnique(q * (q - 1), h, 0, 2);
    assert c * q * (q - 1) == c * (2 * h);
  }

  /** The closed form of the quotient sum that `add_div_numbers` computes on a filled buffer. */
  lemma SumQuotientsIota(n: nat, c: nat)
    requires c != 0
    ensures Sum(Quotients(Iota(n), c)) == QuotientSumOfIota(n, c)
  {
    var q, r := n / c, n % c;
    SumQuotientsIotaBy(n, c, q, r);
    SumIota(q);
    HalveQuotientSum(c, q, r, Sum(Iota(q)), Sum(Quotients(Iota(n), c)));
  }

  /** The cells of a grid, row after row. */
  function Flatten(g: seq<seq<int>>): (r: seq<int>) {
    if g == [] then [] else Flatten(g[..|g| - 1]) + g[|g| - 1]
  }

  /** The per-row totals of a grid: the first pass of `add_matrix`. */
  function RowSums(g: seq<seq<int>>): (r: seq<int>)
    ensures |r| == |g|
  {
    seq(|g|, i requires 0 <= i < |g| => Sum(g[i]))
  }

  /** Reducing row by row and then over the row totals gives the flat sum of all cells. */
  lemma {:induction false} SumRowSums(g: seq<seq<int>>)
    ensures Sum(RowSums(g)) == Sum(Flatten(g))
    decreases |g|
  {
    if g != [] {
      var g', row := g[..|g| - 1], g[|g| - 1];
      assert RowSums(g) == RowSums(g') + [Sum(row)];
      SumSnoc(RowSums(g'), Sum(row));
      SumConcat(Flatten(g'), row);
      SumRowSums(g');
    }
  }

  /** The `n` by `n` pattern of the 2-D filler: row `i`, column `j` holds `i + n * j`. */
  function FilledGrid(n: nat): (g: seq<seq<int>>)
    ensures |g| == n
  {
    seq(n, i requires 0 <= i < n => Affine(n, i, n))
  }

  /** The arithmetic of one row total in `FilledGridSum`. */
  lemma FilledRowTotal(n: nat, i: int, t: int, s: int)
    requires 2 * t == n * (n - 1) && 2 * s == 2 * n * i + n * n * (n - 1)
    ensures s == n * t + n * i
  {
    assert n * n * (n - 1) == n * (2 * t);
  }

  /** The arithmetic of the grand total in `FilledGridSum`. */
  lemma FilledGridTotal(n: nat, t: int, s: int)
    requires 2 * t == n * (n - 1) && 2 * s == 2 * n * (n * t) + n * n * (n - 1)
    ensures 2 * s == n * n * (n * n - 1) && s == n * n * (n * n - 1) / 2
  {
    assert 2 * n * (n * t) == n * n * (2 * t);
    assert n * n * (n * (n - 1)) + n * n * (n - 1) == n * n * (n * n - 1);
    Words.DivModUnique(n * n * (n * n - 1), s, 0, 2);
  }

  /**
   * The filled grid holds every number below `n * n` exactly once, so its total
   * is `n * n * (n * n - 1) / 2`.
   */
  lemma FilledGridSum(n: nat)
    ensures 2 * Sum(Flatten(FilledGrid(n))) == n * n * (n * n - 1)
    ensures Sum(Flatten(FilledGrid(n))) == n * n * (n * n - 1) / 2
  {
    var t := Sum(Iota(n));
    SumIota(n);
    forall i | 0 <= i < n
      ensures RowSums(FilledGrid(n))[i] == n * t + n * i
    {
      SumAffine(n, i, n);
      FilledRowTotal(n, i, t, Sum(Affine(n, i, n)));
    }
    assert RowSums(FilledGrid(n)) == Affine(n, n * t, n);
    SumAffine(n, n * t, n);
    SumRowSums(FilledGrid(n));
    FilledGridTotal(n, t, Sum(Flatten(FilledGrid(n))));
  }

  /**
   * The `n` by `n` filled grid has the same total as the first `n * n`
   * indices: the matrix benchmark of side `n` and the flat one of size
   * `n * n` sum the same numbers.
   */
  lemma FilledGridMatchesIota(n: nat)
    ensures Sum(Flatten(FilledGrid(n))) == Sum(Iota(n * n))
  {
    FilledGridSum(n);
    SumIota(n * n);
  }
}
