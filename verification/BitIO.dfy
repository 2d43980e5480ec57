/** Bit streams of the secondary compressors: values go most significant bit
    first, into bytes that fill from their least significant bit. */
module BitIO {
  import opened Bytes
  import opened Options

  function Pow2(n: nat): (p: nat)
    ensures p > 0 && (n > 0 ==> p % 2 == 0)
  {
    if n == 0 then 1 else 2 * Pow2(n - 1)
  }

  /** The low `n` bits of `v`, most significant first. */
  function ToBits(v: nat, n: nat): (b: seq<bool>)
    ensures |b| == n
  {
    if n == 0 then [] else ToBits(v / 2, n - 1) + [v % 2 == 1]
  }

  function BitValue(b: bool): nat {
    if b then 1 else 0
  }

  function Value(b: seq<bool>): nat {
    if b == [] then 0 else 2 * Value(b[..|b| - 1]) + BitValue(b[|b| - 1])
  }

  lemma ValueSnoc(b: seq<bool>, x: bool)
    ensures Value(b + [x]) == 2 * Value(b) + BitValue(x)
  {
    assert (b + [x])[..|b|] == b;
  }

  lemma {:induction false} ValueToBits(v: nat, n: nat)
    requires v < Pow2(n)
    ensures Value(ToBits(v, n)) == v
  {
    if n > 0 {
      ValueToBits(v / 2, n - 1);
      ValueSnoc(ToBits(v / 2, n - 1), v % 2 == 1);
    }
  }

  /** The low `n` bits of `v`, least significant first. */
  function Lsb(v: nat, n: nat): (b: seq<bool>)
    ensures |b| == n
  {
    if n == 0 then [] else [v % 2 == 1] + Lsb(v / 2, n - 1)
  }

  /** Setting bit `n` of a smaller number appends a bit. */
  lemma {:induction false} LsbSnoc(v: nat, n: nat, x: bool)
    requires v < Pow2(n)
    ensures v + BitValue(x) * Pow2(n) < Pow2(n + 1)
    ensures Lsb(v + BitValue(x) * Pow2(n), n + 1) == Lsb(v, n) + [x]
  {
    if n > 0 {
      LsbSnoc(v / 2, n - 1, x);
      assert (v + BitValue(x) * Pow2(n)) / 2 == v / 2 + BitValue(x) * Pow2(n - 1);
      assert (v + BitValue(x) * Pow2(n)) % 2 == v % 2;
    } else {
      assert Lsb(v + BitValue(x), 1) == [x] + Lsb((v + BitValue(x)) / 2, 0);
    }
  }

  /** The bits of a byte string in the order they are read. */
  function Unpack(s: seq<byte>): (b: seq<bool>)
    ensures |b| == 8 * |s|
  {
    if s == [] then [] else Lsb(s[0], 8) + Unpack(s[1..])
  }

  lemma {:induction false} UnpackAppend(s: seq<byte>, t: seq<byte>)
    ensures Unpack(s + t) == Unpack(s) + Unpack(t)
  {
    hide Lsb;
    if s == [] {
      assert s + t == t;
    } else {
      UnpackAppend(s[1..], t);
      assert (s + t)[1..] == s[1..] + t;
    }
  }

  function Zeros(n: nat): (z: seq<bool>) {
    seq(n, i => false)
  }

  /** The unset bits above a small number. */
  lemma {:induction false} LsbPad(v: nat, n: nat, m: nat)
    requires v < Pow2(n)
    ensures Lsb(v, n + m) == Lsb(v, n) + Zeros(m)
  {
    if m > 0 {
      LsbPad(v, n, m - 1);
      Pow2Grows(n, n + m - 1);
      LsbSnoc(v, n + m - 1, false);
      assert Zeros(m) == Zeros(m - 1) + [false];
    }
  }

  lemma {:induction false} Pow2Grows(a: nat, b: nat)
    requires a <= b
    ensures Pow2(a) <= Pow2(b)
  {
    if a < b { Pow2Grows(a, b - 1); }
  }

  /** `v` shifted right; `m` is the weight of the lowest bit kept. */
  function Shifted(v: nat, m: nat): nat
    requires m > 0
  {
    v / m
  }

  lemma ShiftedHalf(v: nat, m: nat)
    requires m > 0
    ensures Shifted(v, m) / 2 == Shifted(v, 2 * m)
  {
    var q, r := v / m, v % m;
    assert v == (2 * m) * (q / 2) + ((q % 2) * m + r);
    QuotientIs(v, 2 * m, q / 2, (q % 2) * m + r);
  }

  lemma QuotientIs(v: nat, m: nat, q: nat, r: nat)
    requires m > 0 && v == m * q + r && r < m
    ensures v / m == q
  {
    var d := v / m - q;
    assert m * d == r - v % m;
    assert d >= 1 ==> m * d >= m;
    assert d <= -1 ==> m * d <= 0 - m;
  }

  lemma Pow2Values(k: nat)
    ensures Pow2(k) == 1 <==> k == 0
    ensures Pow2(7) == 0x80 && Pow2(8) == 0x100
    ensures k < 7 ==> Pow2(k) < 0x80
    ensures k < 8 ==> Pow2(k) < 0x100
  {
    if k < 7 { Pow2Grows(k, 6); }
  }

  /** One more bit for the byte being filled, or the bit that fills it. */
  lemma PushBit(out: seq<byte>, cur: nat, k: nat, bit: bool)
    requires cur < Pow2(k) && k < 8
    ensures Pow2(k) == 0x80 <==> k == 7
    ensures Pow2(0) == 1 && Lsb(0, 0) == [] && Pow2(k + 1) == Pow2(k) * 2
    ensures var c := if bit then cur + Pow2(k) else cur; var was := Unpack(out) + Lsb(cur, k);
      && c < Pow2(k + 1)
      && (k == 7 ==> c < 256 && Unpack(out + [c]) == was + [bit])
      && Unpack(out) + Lsb(c, k + 1) == was + [bit]
  {
    var c := if bit then cur + Pow2(k) else cur;
    assert c == cur + BitValue(bit) * Pow2(k);
    LsbSnoc(cur, k, bit);
    Pow2Values(k);
    if k == 7 {
      UnpackAppend(out, [c]);
    }
    assert (Unpack(out) + Lsb(cur, k)) + [bit] == Unpack(out) + (Lsb(cur, k) + [bit]);
  }

  /** Halving a mask. */
  lemma NextMask(value: nat, k: nat, m: nat)
    requires 0 < k
    ensures Pow2(k) / 2 == Pow2(k - 1) && (Pow2(k - 1) == 1 <==> k == 1)
    ensures ToBits(Shifted(value, Pow2(k)), m) + [Shifted(value, Pow2(k - 1)) % 2 == 1]
         == ToBits(Shifted(value, Pow2(k - 1)), m + 1)
  {
    ShiftedHalf(value, Pow2(k - 1));
    Pow2Values(k - 1);
  }

  lemma FirstMask(value: nat, n: nat)
    requires value < Pow2(n)
    ensures ToBits(Shifted(value, Pow2(n)), 0) == [] && Shifted(value, 1) == value
  {
  }

  /** The next bit of a byte string whose current byte is used up to bit `k`. */
  lemma TakeNext(cur: byte, k: nat)
    requires k < 8
    ensures Lsb(Shifted(cur, Pow2(k)), 8 - k)
         == [Shifted(cur, Pow2(k)) % 2 == 1] + Lsb(Shifted(cur, Pow2(k + 1)), 8 - (k + 1))
    ensures Pow2(k + 1) == Pow2(k) * 2 && Pow2(k) != 0x100
  {
    ShiftedHalf(cur, Pow2(k));
    Pow2Values(k);
  }

  lemma Horner(x: nat, h: nat, bit: bool)
    ensures (2 * x + BitValue(bit)) * h == x * (2 * h) + if bit then h else 0
  {
    if bit {
      assert (2 * x + 1) * h == 2 * x * h + h;
    }
  }

  /** The value of one more bit. */
  lemma ValueStep(b: seq<bool>, k: nat, m: nat, v: nat, bit: bool)
    requires m < |b| && b[m] == bit && v == Value(b[..m]) * Pow2(k) && 0 < k
    ensures (if bit then v + Pow2(k - 1) else v) == Value(b[..m + 1]) * Pow2(k - 1)
    ensures Pow2(k) / 2 == Pow2(k - 1) && (Pow2(k - 1) == 1 <==> k == 1)
  {
    hide Value;
    assert b[..m + 1] == b[..m] + [bit];
    ValueSnoc(b[..m], bit);
    Pow2Values(k - 1);
    Horner(Value(b[..m]), Pow2(k - 1), bit);
  }

  /** The output of an encoder: `bit_state` and the bytes emitted. */
  class BitWriter {
    var out: seq<byte>
    var curByte: nat
    var curMask: nat
    ghost var used: nat

    ghost predicate Valid()
      reads this
    {
      used < 8 && curMask == Pow2(used) && curByte < curMask
    }

    /** All bits written. */
    ghost function Bits(): seq<bool>
      reads this
    {
      Unpack(out) + Lsb(curByte, used)
    }

    constructor ()
      ensures Valid() && out == [] && Bits() == []
    {
      out, curByte, curMask, used := [], 0, 1, 0;
    }

    /** `xd3_encode_bit`. */
    method EncodeBit(bit: bool)
      requires Valid()
      modifies this
      ensures Valid() && Bits() == old(Bits()) + [bit]
      ensures out == old(out) || |out| == |old(out)| + 1
    {
      hide Pow2, Lsb, Unpack;
      PushBit(out, curByte, used, bit);
      if bit {
        curByte := curByte + curMask;
      }
      if curMask == 0x80 {
        out := out + [curByte];
        curMask, curByte, used := 1, 0, 0;
      } else {
        curMask, used := curMask * 2, used + 1;
      }
    }

    /** `xd3_encode_bits`. */
    method EncodeBits(n: nat, value: nat)
      requires Valid() && 0 < n && value < Pow2(n)
      modifies this
      ensures Valid() && Bits() == old(Bits()) + ToBits(value, n)
    {
      hide Pow2, Lsb, Unpack, ToBits, Shifted;
      FirstMask(value, n);
      ghost var b0 := Bits();
      var mask := Pow2(n);
      ghost var k := n;
      while true
        invariant 0 < k <= n && mask == Pow2(k) && Valid()
        invariant Bits() == b0 + ToBits(Shifted(value, mask), n - k)
        decreases k
      {
        NextMask(value, k, n - k);
        mask, k := mask / 2, k - 1;
        EncodeBit(Shifted(value, mask) % 2 == 1);
        if mask == 1 {
          break;
        }
      }
    }

    /** `xd3_flush_bits`: zero bits fill the last byte. */
    method FlushBits()
      requires Valid()
      modifies this
      ensures exists pad: nat :: pad < 8 && Unpack(out) == old(Bits()) + Zeros(pad)
    {
      Pow2Values(used);
      if curMask == 1 {
        assert Unpack(out) == Bits() + Zeros(0);
      } else {
        Pow2Grows(used, 8);
        LsbPad(curByte, used, 8 - used);
        UnpackAppend(out, [curByte]);
        out := out + [curByte];
      }
    }
  }

  /** The input of a decoder. */
  class BitReader {
    const input: seq<byte>
    var pos: nat
    var curByte: byte
    var curMask: nat
    ghost var used: nat

    ghost predicate Valid()
      reads this
    {
      used <= 8 && curMask == Pow2(used) && pos <= |input|
    }

    /** The bits not read yet. */
    ghost function Rest(): seq<bool>
      requires Valid()
      reads this
    {
      Lsb(Shifted(curByte, curMask), 8 - used) + Unpack(input[pos..])
    }

    constructor (input: seq<byte>)
      ensures Valid() && this.input == input && Rest() == Unpack(input) && used > 0
    {
      Pow2Values(8);
      this.input := input;
      pos, curByte, curMask, used := 0, 0, 0x100, 8;
      new;
      assert input[0..] == input;
    }

    /** All bytes but the one being read are still to come. */
    lemma BytesRead()
      requires Valid() && used > 0
      ensures |input| - pos == |Rest()| / 8
    {
    }

    /** Step to the next byte when the current one is used up. */
    method NextByte() returns (ok: bool)
      requires Valid()
      modifies this
      ensures Valid() && Rest() == old(Rest()) && (ok <==> Rest() != []) && (ok ==> curMask != 0x100)
    {
      Pow2Values(used);
      if curMask == 0x100 {
        if pos == |input| {
          return false;
        }
        assert input[pos..] == [input[pos]] + input[pos + 1..];
        curByte, pos := input[pos], pos + 1;
        curMask, used := 1, 0;
      }
      ok := true;
    }

    /** Take the bit under the mask. */
    method TakeBit() returns (bit: bool)
      requires Valid() && curMask != 0x100
      modifies this
      ensures Valid() && old(Rest()) == [bit] + Rest() && used > 0
    {
      hide Lsb, Unpack, Shifted;
      Pow2Values(used);
      TakeNext(curByte, used);
      bit := Shifted(curByte, curMask) % 2 == 1;
      curMask, used := curMask * 2, used + 1;
    }

    /** `xd3_decode_bits`. */
    method DecodeBits(n: nat) returns (r: Option<nat>)
      requires Valid() && 0 < n
      modifies this
      ensures Valid() && (r.Some? <==> n <= |old(Rest())|)
      ensures r.Some? ==> r.value == Value(old(Rest())[..n]) && Rest() == old(Rest())[n..] && used > 0
    {
      hide Pow2, Lsb, Unpack, Shifted, Value;
      ghost var b := Rest();
      var value, vmask := 0, Pow2(n);
      ghost var k := n;
      FirstValue(b);
      while true
        invariant 0 < k <= n && vmask == Pow2(k) && Valid() && n - k <= |b|
        invariant Rest() == b[n - k..] && value == Value(b[..n - k]) * vmask
        decreases k
      {
        var ok := NextByte();
        if !ok {
          return None;
        }
        var bit := TakeBit();
        ValueStep(b, k, n - k, value, bit);
        vmask, k := vmask / 2, k - 1;
        if bit {
          value := value + vmask;
        }
        if vmask == 1 {
          return Some(value);
        }
      }
    }
  }

  lemma FirstValue(b: seq<bool>)
    ensures Value(b[..0]) == 0
  {
  }
}
