/**
 * The two `fill_array` overloads: each overwrites the caller's buffer in place
 * with a pattern that depends only on the position, converting the C `int`
 * it computes to the element width.
 */
module Fillers {

  import opened Words

  /** 1-D `fill_array`: `v[i] = i` for every `i < size`; nothing at or beyond `size` changes. */
  method FillArray(w: Width, v: array<nat>, size: CInt)
    requires size <= v.Length
    modifies v
    ensures forall k :: 0 <= k < Trips(size) ==> v[k] == k
    ensures forall k :: Trips(size) <= k < v.Length ==> v[k] == old(v[k])
  {
    var i: int := 0;
    while i < size
      invariant 0 <= i <= Trips(size)
      invariant forall k :: 0 <= k < i ==> v[k] == k
      invariant forall k :: i <= k < v.Length ==> v[k] == old(v[k])
    {
      WrapWord(w, i);
      v[i] := Wrap(w, i);
      i := i + 1;
    }
  }

  /** The largest value the 2-D filler computes, `(n - 1) + n * (n - 1)`, is below `n * n`. */
  lemma CellBelowSquare(n: nat, i: nat, j: nat)
    requires i < n && j < n
    ensures i + n * j < n * n
  {
    assert n * j <= n * (n - 1) by {
      assert n * (n - 1) - n * j == n * (n - 1 - j);
    }
  }

  /**
   * 2-D `fill_array` on a `size` by `size` matrix: `v[i][j] = i + size * j`.
   * The value is computed as a C `int`, so the source needs `size * size` to
   * stay within `int`; then it is below 2^31 and fits either width unchanged.
   */
  method FillMatrix(w: Width, v: array2<nat>)
    requires v.Length0 == v.Length1
    requires v.Length0 * v.Length0 <= 0x8000_0000
    modifies v
    ensures forall i, j :: 0 <= i < v.Length0 && 0 <= j < v.Length1 ==> v[i, j] == i + v.Length0 * j
  {
    var size := v.Length0;
    for i := 0 to size
      invariant forall i', j :: 0 <= i' < i && 0 <= j < size ==> v[i', j] == i' + size * j
    {
      for j := 0 to size
        invariant forall i', j' :: 0 <= i' < i && 0 <= j' < size ==> v[i', j'] == i' + size * j'
        invariant forall j' :: 0 <= j' < j ==> v[i, j'] == i + size * j'
      {
        CellBelowSquare(size, i, j);
        WrapWord(w, i + size * j);
        v[i, j] := Wrap(w, i + size * j);
      }
    }
  }
}
