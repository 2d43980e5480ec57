/** Machine words shared by every module. */
module Bytes {

  /** `uint8_t`. */
  type byte = x: int | 0 <= x < 256

  /** `usize_t` holds values below this bound, `xoff_t` values below the next. */
  const USIZE_LIMIT := 0x1_0000_0000
  const XOFF_LIMIT := 0x1_0000_0000_0000_0000

  function Min(a: int, b: int): int {
    if a < b then a else b
  }

  function Max(a: int, b: int): int {
    if a < b then b else a
  }

  /** 32-bit wrap-around of a sum or difference of two `usize_t` values. */
  function Wrap(x: int): (r: nat)
    requires -USIZE_LIMIT < x < 2 * USIZE_LIMIT
    ensures r < USIZE_LIMIT && (0 <= x < USIZE_LIMIT ==> r == x)
  {
    if x < 0 then x + USIZE_LIMIT else if x >= USIZE_LIMIT then x - USIZE_LIMIT else x
  }

  predicate SameAt(a: seq<byte>, i: nat, b: seq<byte>, j: nat, k: nat) {
    i + k < |a| && j + k < |b| && a[i + k] == b[j + k]
  }

  /** The `n` bytes at `a[i..]` are those at `b[j..]`. */
  ghost predicate Same(a: seq<byte>, i: nat, b: seq<byte>, j: nat, n: nat) {
    i + n <= |a| && j + n <= |b| && forall k: nat | k < n :: SameAt(a, i, b, j, k)
  }

  /** Equal stretches have equal parts. */
  lemma SamePart(a: seq<byte>, i: nat, b: seq<byte>, j: nat, n: nat, off: nat, m: nat)
    requires Same(a, i, b, j, n) && off + m <= n
    ensures Same(a, i + off, b, j + off, m)
  {
    var i', j' := i + off, j + off;
    forall k: nat | k < m ensures SameAt(a, i', b, j', k) {
      assert SameAt(a, i, b, j, off + k);
    }
  }

  lemma MultipleFar(b: int, d: int)
    requires 0 < b
    ensures (d >= 1 ==> b * d >= b) && (d <= -1 ==> b * d <= -b)
  {
  }

  lemma Quotient(x: nat, d: nat, q: nat)
    requires 0 < d && q * d <= x < q * d + d
    ensures x / d == q
  {
    var e := x / d - q;
    assert d * e == x - x % d - q * d;
    MultipleFar(d, e);
  }
}
