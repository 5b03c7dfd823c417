/**
 * Fixed-width unsigned integers, as the benchmark's `uint32_t` and `uint64_t`
 * element types behave: every value lies below 2^W and every addition,
 * multiplication and conversion from a C `int` wraps modulo 2^W.
 */
module Words {

  /** The element width a kernel is instantiated at (the template argument T). */
  datatype Width = W32 | W64

  /** 2^W for the width W. */
  function Modulus(w: Width): (m: nat)
    ensures m >= 0x1_0000_0000
  {
    match w
    case W32 => 0x1_0000_0000
    case W64 => 0x1_0000_0000_0000_0000
  }

  /** `x` is a value of the unsigned type of width `w`. */
  predicate IsWord(w: Width, x: int) {
    0 <= x < Modulus(w)
  }

  /** A C `int` as the benchmark uses it: loop counters and the `size` argument. */
  type CInt = x: int | -0x8000_0000 <= x < 0x8000_0000

  /** How often `for (int i = 0; i < size; i++)` runs its body. */
  function Trips(size: CInt): nat {
    if size < 0 then 0 else size
  }

  /**
   * The value an unsigned variable of width `w` holds after being assigned the
   * mathematical value `x`: the unique word congruent to `x` modulo 2^W.
   * The moduli are spelled out per width rather than as `x % Modulus(w)`:
   * a literal divisor keeps the kernels' proofs cheaper for the solver.
   */
  function Wrap(w: Width, x: int): (r: nat)
    ensures IsWord(w, r)
  {
    match w
    case W32 => x % 0x1_0000_0000
    case W64 => x % 0x1_0000_0000_0000_0000
  }

  /** Assigning a value that already fits leaves it unchanged. */
  lemma WrapWord(w: Width, x: int)
    requires IsWord(w, x)
    ensures Wrap(w, x) == x
  {
  }

  /** A positive multiple of a positive number is at least that number. */
  lemma MulAtLeast(d: int, m: int)
    requires d >= 1 && m > 0
    ensures d * m >= m
  {
    assert d * m == (d - 1) * m + m;
  }

  /** Euclidean division is determined by its defining equation. */
  lemma DivModUnique(x: int, q: int, r: int, m: int)
    requires m > 0 && 0 <= r < m && x == q * m + r
    ensures x / m == q && x % m == r
  {
    var q0, r0 := x / m, x % m;
    assert x == q0 * m + r0;
    assert (q - q0) * m == r0 - r;
    if q > q0 {
      MulAtLeast(q - q0, m);
    } else if q < q0 {
      MulAtLeast(q0 - q, m);
    }
  }

  /** Adding a whole multiple of 2^W does not change the wrapped value. */
  lemma WrapShift(w: Width, x: int, k: int)
    ensures Wrap(w, x + k * Modulus(w)) == Wrap(w, x)
  {
    var m := Modulus(w);
    assert x + k * m == (x / m + k) * m + x % m;
    DivModUnique(x + k * m, x / m + k, x % m, m);
  }

  /**
   * Wrapping an intermediate result changes nothing modulo 2^W: an accumulator
   * that wraps at every step ends where one wrapping once at the end would.
   */
  lemma WrapAdd(w: Width, a: int, b: int)
    ensures Wrap(w, Wrap(w, a) + b) == Wrap(w, a + b)
    ensures Wrap(w, Wrap(w, a) + Wrap(w, b)) == Wrap(w, a + b)
  {
    var m := Modulus(w);
    assert Wrap(w, a) + b == a + b + (-(a / m)) * m;
    WrapShift(w, a + b, -(a / m));
    assert Wrap(w, a) + Wrap(w, b) == a + b + (-(a / m) - b / m) * m;
    WrapShift(w, a + b, -(a / m) - b / m);
  }

  /**
   * One `acc += x` step on a wrapping accumulator: if `acc` holds `a` modulo
   * 2^W, then after adding `x` (wrapped or not) it holds `a + x` modulo 2^W.
   */
  lemma WrapStep(w: Width, acc: int, a: int, x: int, total: int)
    requires acc == Wrap(w, a) && total == a + x
    ensures Wrap(w, acc + x) == Wrap(w, total)
    ensures Wrap(w, acc + Wrap(w, x)) == Wrap(w, total)
  {
    WrapAdd(w, a, x);
  }
}
