/** Checksums computed fast, against their definitions. */
module Checksum {
  import opened Bytes

  const A32_BASE := 65521
  const A32_NMAX := 5552

  /** Adler-32 by the byte (section 2.2 of RFC 1950), from sums `s1` and `s2`. */
  function Adler(s1: nat, s2: nat, buf: seq<byte>): (r: (nat, nat))
    ensures s1 < A32_BASE && s2 < A32_BASE ==> r.0 < A32_BASE && r.1 < A32_BASE
  {
    if buf == [] then (s1, s2)
    else
      var p := Adler(s1, s2, buf[..|buf| - 1]);
      var a := (p.0 + buf[|buf| - 1]) % A32_BASE;
      (a, (p.1 + a) % A32_BASE)
  }

  /** The same sums with no modulus at all. */
  function Plain(s1: nat, s2: nat, buf: seq<byte>): (nat, nat) {
    if buf == [] then (s1, s2)
    else
      var p := Plain(s1, s2, buf[..|buf| - 1]);
      var a := p.0 + buf[|buf| - 1];
      (a, p.1 + a)
  }

  function Total(buf: seq<byte>): nat {
    if buf == [] then 0 else buf[0] + Total(buf[1..])
  }

  /** Each byte counts once for itself and once for each that follows. */
  function Weighted(buf: seq<byte>): nat {
    if buf == [] then 0 else |buf| * buf[0] + Weighted(buf[1..])
  }

  lemma {:induction false} OneMore(buf: seq<byte>, x: byte)
    ensures Total(buf + [x]) == Total(buf) + x && Weighted(buf + [x]) == Weighted(buf) + Total(buf) + x
  {
    if buf == [] {
      assert [] + [x] == [x];
      assert [x][1..] == [];
    } else {
      OneMore(buf[1..], x);
      assert (buf + [x])[1..] == buf[1..] + [x];
      assert (|buf| + 1) * buf[0] == |buf| * buf[0] + buf[0];
    }
  }

  lemma NoBytes()
    ensures Total([]) == 0 == Weighted([])
  {
  }

  lemma NextTimes(n: nat, s: nat)
    ensures (n + 1) * s == n * s + s
  {
  }

  lemma {:induction false} PlainIs(s1: nat, s2: nat, buf: seq<byte>)
    ensures Plain(s1, s2, buf) == (s1 + Total(buf), s2 + |buf| * s1 + Weighted(buf))
  {
    hide Total, Weighted;
    NoBytes();
    if buf != [] {
      var t, x := buf[..|buf| - 1], buf[|buf| - 1];
      PlainIs(s1, s2, t);
      OneMore(t, x);
      assert t + [x] == buf;
      NextTimes(|t|, s1);
    }
  }

  /** The checksum in closed form (section 2.2 of RFC 1950): one plus all bytes, and the sum
      of what that was after each byte, both modulo 65521. */
  lemma AdlerIs(buf: seq<byte>)
    ensures Adler(1, 0, buf) == ((1 + Total(buf)) % 65521, (|buf| + Weighted(buf)) % 65521)
  {
    PlainIs(1, 0, buf);
    ModLater(1, 0, buf);
  }

  lemma ModAdd(x: nat, y: nat)
    ensures (x % A32_BASE + y % A32_BASE) % A32_BASE == (x + y) % A32_BASE
    ensures (x % A32_BASE + y) % A32_BASE == (x + y) % A32_BASE
  {
  }

  /** The modulus may be taken at the end. */
  lemma {:induction false} ModLater(s1: nat, s2: nat, buf: seq<byte>)
    requires s1 < A32_BASE && s2 < A32_BASE
    ensures var p := Plain(s1, s2, buf); Adler(s1, s2, buf) == (p.0 % A32_BASE, p.1 % A32_BASE)
  {
    if buf != [] {
      var n := |buf| - 1;
      ModLater(s1, s2, buf[..n]);
      var p := Plain(s1, s2, buf[..n]);
      ModAdd(p.0, buf[n]);
      ModAdd(p.1, p.0 + buf[n]);
    }
  }

  /** Up to A32_NMAX bytes the sums stay below `2^32`. */
  lemma {:induction false} PlainBound(s1: nat, s2: nat, buf: seq<byte>)
    requires s1 < A32_BASE && s2 < A32_BASE
    ensures var p, k := Plain(s1, s2, buf), |buf|;
      p.0 <= A32_BASE - 1 + 255 * k && 2 * p.1 <= 2 * (A32_BASE - 1) * (k + 1) + 255 * (k * (k + 1))
  {
    if buf != [] {
      var n := |buf| - 1;
      PlainBound(s1, s2, buf[..n]);
      assert (n + 1) * (n + 2) == n * (n + 1) + 2 * (n + 1);
    }
  }

  lemma NoWrap(s1: nat, s2: nat, buf: seq<byte>)
    requires s1 < A32_BASE && s2 < A32_BASE && |buf| <= A32_NMAX
    ensures var p := Plain(s1, s2, buf); p.0 < USIZE_LIMIT && p.1 < USIZE_LIMIT
  {
    PlainBound(s1, s2, buf);
    var k := |buf|;
    assert k * (k + 1) <= A32_NMAX * (A32_NMAX + 1);
  }

  lemma {:induction false} AdlerAppend(s1: nat, s2: nat, a: seq<byte>, b: seq<byte>)
    ensures var p := Adler(s1, s2, a); Adler(s1, s2, a + b) == Adler(p.0, p.1, b)
  {
    if b == [] {
      assert a + b == a;
    } else {
      AdlerAppend(s1, s2, a, b[..|b| - 1]);
      assert (a + b)[..|a + b| - 1] == a + b[..|b| - 1];
    }
  }

  /** A32_DO1: one byte, in 32 bits. */
  lemma PlainStep(s1: nat, s2: nat, buf: seq<byte>, i: nat, j: nat)
    requires i <= j < |buf|
    ensures var p := Plain(s1, s2, buf[i..j]);
      Plain(s1, s2, buf[i..j + 1]) == (p.0 + buf[j], p.1 + p.0 + buf[j])
  {
    assert buf[i..j + 1][..j - i] == buf[i..j];
  }

  /** `adler32`. */
  method Adler32(adler: nat, buf: seq<byte>) returns (r: nat)
    requires adler % 65536 < A32_BASE && adler / 65536 % 65536 < A32_BASE
    ensures var p := Adler(adler % 65536, adler / 65536 % 65536, buf); r == p.1 * 65536 + p.0
  {
    hide Adler, Plain;
    var s1, s2 := adler % 65536, adler / 65536 % 65536;
    ghost var a, b := s1, s2;
    var pos: nat, len: nat := 0, |buf|;
    AdlerStart(a, b, buf);
    while len > 0
      invariant pos + len == |buf| && s1 < A32_BASE && s2 < A32_BASE
      invariant Adler(a, b, buf[..pos]) == (s1, s2)
    {
      var k := if len < A32_NMAX then len else A32_NMAX;
      len := len - k;
      ghost var i, t1, t2 := pos, s1, s2;
      PlainNone(t1, t2);
      assert buf[i..pos] == [];
      while k >= 16
        invariant 0 <= k && pos + k + len == |buf| && pos + k - i <= A32_NMAX && i <= pos
        invariant Plain(t1, t2, buf[i..pos]) == (s1, s2)
      {
        for j := 0 to 16
          invariant Plain(t1, t2, buf[i..pos + j]) == (s1, s2)
        {
          PlainStep(t1, t2, buf, i, pos + j);
          s1 := s1 + buf[pos + j];
          s2 := s2 + s1;
        }
        pos := pos + 16;
        k := k - 16;
      }
      while k != 0
        invariant 0 <= k && pos + k + len == |buf| && pos + k - i <= A32_NMAX && i <= pos
        invariant Plain(t1, t2, buf[i..pos]) == (s1, s2)
      {
        PlainStep(t1, t2, buf, i, pos);
        s1 := s1 + buf[pos];
        s2 := s2 + s1;
        pos := pos + 1;
        k := k - 1;
      }
      NoWrap(t1, t2, buf[i..pos]);
      ModLater(t1, t2, buf[i..pos]);
      AdlerAppend(a, b, buf[..i], buf[i..pos]);
      assert buf[..i] + buf[i..pos] == buf[..pos];
      assert s1 < USIZE_LIMIT && s2 < USIZE_LIMIT;
      s1 := s1 % A32_BASE;
      s2 := s2 % A32_BASE;
    }
    assert buf[..pos] == buf;
    r := s2 * 65536 + s1;
  }

  lemma AdlerStart(s1: nat, s2: nat, buf: seq<byte>)
    ensures Adler(s1, s2, buf[..0]) == (s1, s2)
  {
  }

  lemma PlainNone(s1: nat, s2: nat)
    ensures Plain(s1, s2, []) == (s1, s2)
  {
  }

  /** The two sums of the large checksum; `perm` is the byte permutation. */
  function Low(perm: byte -> nat, seg: seq<byte>): nat {
    if seg == [] then 0 else Low(perm, seg[..|seg| - 1]) + perm(seg[|seg| - 1])
  }

  function High(perm: byte -> nat, seg: seq<byte>): nat {
    if seg == [] then 0 else High(perm, seg[..|seg| - 1]) + Low(perm, seg)
  }

  /** The large checksum of a window. */
  function LargeCksum(perm: byte -> nat, seg: seq<byte>): nat {
    High(perm, seg) % 65536 * 65536 + Low(perm, seg) % 65536
  }

  /** `xd3_lcksum`, in 32 bits. */
  method Lcksum(perm: byte -> nat, seg: seq<byte>) returns (r: nat)
    ensures r == LargeCksum(perm, seg)
  {
    var low, high := 0, 0;
    for i := 0 to |seg|
      invariant low == Low(perm, seg[..i]) % USIZE_LIMIT && high == High(perm, seg[..i]) % USIZE_LIMIT
    {
      assert seg[..i + 1][..i] == seg[..i];
      Wrapped(Low(perm, seg[..i]), perm(seg[i]));
      WrappedBoth(High(perm, seg[..i]), Low(perm, seg[..i + 1]));
      low := (low + perm(seg[i])) % USIZE_LIMIT;
      high := (high + low) % USIZE_LIMIT;
    }
    assert seg[..|seg|] == seg;
    ModTwice(Low(perm, seg));
    ModTwice(High(perm, seg));
    r := high % 65536 * 65536 + low % 65536;
  }

  lemma {:induction false} Cons(perm: byte -> nat, x: byte, t: seq<byte>)
    ensures Low(perm, [x] + t) == perm(x) + Low(perm, t)
    ensures High(perm, [x] + t) == High(perm, t) + perm(x) * (|t| + 1)
  {
    var s := [x] + t;
    if t == [] {
      assert s[..0] == [];
      assert Low(perm, s) == perm(x);
    } else {
      var u := t[..|t| - 1];
      assert s[..|s| - 1] == [x] + u;
      Cons(perm, x, u);
      assert perm(x) * (|t| + 1) == perm(x) * (|u| + 1) + perm(x);
    }
  }

  /** `xd3_large_cksum_update`, in 32 bits. */
  function Update(perm: byte -> nat, cksum: nat, gone: byte, come: byte, look: nat): nat {
    Rolled(cksum % 65536, cksum / 65536, perm(gone), perm(come), perm(gone) * look)
  }

  function Rolled(low: nat, high: nat, oldC: nat, newC: nat, oldLook: nat): nat {
    var low' := (low - oldC + newC) % USIZE_LIMIT % 65536;
    (high - oldLook % USIZE_LIMIT + low') % USIZE_LIMIT % 65536 * 65536 + low'
  }

  lemma ModTwice(x: int)
    ensures x % USIZE_LIMIT % 65536 == x % 65536
  {
  }

  lemma Wrapped(x: nat, y: nat)
    ensures (x % USIZE_LIMIT + y) % USIZE_LIMIT == (x + y) % USIZE_LIMIT
  {
  }

  lemma WrappedBoth(x: nat, y: nat)
    ensures (x % USIZE_LIMIT + y % USIZE_LIMIT) % USIZE_LIMIT == (x + y) % USIZE_LIMIT
  {
  }

  lemma ModShift(x: int, k: int)
    ensures (x + 65536 * k) % 65536 == x % 65536
  {
  }

  lemma SubMod(h: nat, m: nat, l: nat)
    ensures (h % 65536 - m % USIZE_LIMIT + l % 65536) % USIZE_LIMIT % 65536 == (h - m + l) % 65536
  {
    ModTwice(h % 65536 - m % USIZE_LIMIT + l % 65536);
    ModShift(h - m + l, m / USIZE_LIMIT * 65536 - h / 65536 - l / 65536);
  }

  lemma LowMod(l: nat, x: nat, y: nat)
    ensures (l % 65536 - x + y) % USIZE_LIMIT % 65536 == (l - x + y) % 65536
  {
    ModTwice(l % 65536 - x + y);
    ModShift(l - x + y, 0 - l / 65536);
  }

  lemma Halves(h: nat, l: nat)
    ensures var c := h % 65536 * 65536 + l % 65536; c % 65536 == l % 65536 && c / 65536 == h % 65536
  {
  }

  /** Rolling the checksum by one byte gives the checksum of the shifted
      window. */
  lemma RollingUpdate(perm: byte -> nat, x: byte, t: seq<byte>, y: byte)
    ensures Update(perm, LargeCksum(perm, [x] + t), x, y, |t| + 1) == LargeCksum(perm, t + [y])
  {
    hide Low, High, Rolled;
    Cons(perm, x, t);
    Snoc(perm, t, y);
    var h, l := High(perm, [x] + t), Low(perm, [x] + t);
    Halves(h, l);
    RolledIs(h, l, perm(x), perm(y), perm(x) * (|t| + 1));
  }

  lemma RolledIs(h: nat, l: nat, x: nat, y: nat, m: nat)
    requires l - x + y >= 0 && h - m + (l - x + y) >= 0
    ensures Rolled(l % 65536, h % 65536, x, y, m) == (h - m + (l - x + y)) % 65536 * 65536 + (l - x + y) % 65536
  {
    LowMod(l, x, y);
    SubMod(h, m, l - x + y);
  }

  lemma Snoc(perm: byte -> nat, t: seq<byte>, y: byte)
    ensures Low(perm, t + [y]) == Low(perm, t) + perm(y)
    ensures High(perm, t + [y]) == High(perm, t) + Low(perm, t + [y])
  {
    assert (t + [y])[..|t|] == t;
  }
}
