/** Base-128 integers of VCDIFF (section 2 of RFC 3284), most significant digit
    first, high bit set on every byte but the last. */
module Varint {
  import opened Bytes

  /** An accumulator at or above this bound has a bit under UINT32_OFLOW_MASK;
      the second bound is that of UINT64_OFLOW_MASK. */
  const OFLOW32 := 0x200_0000
  const OFLOW64 := 0x200_0000_0000_0000

  /** `Partial` is end of input: the one-shot reader reports an error, the
      resumable decoder keeps `part` until more input arrives. */
  datatype Read = Ok(value: nat, rest: seq<byte>) | Partial(part: nat) | Overflow

  /** The specification of both readers, resumed with `part` accumulated. */
  function ReadFrom(part: nat, s: seq<byte>, oflow: nat): Read
    decreases |s|
  {
    if s == [] then Partial(part)
    else if part >= oflow then Overflow
    else
      var next := part * 128 + s[0] % 128;
      if s[0] < 128 then Ok(next, s[1..]) else ReadFrom(next, s[1..], oflow)
  }

  function Digits(num: nat): seq<byte> {
    if num == 0 then [] else Digits(num / 128) + [num % 128 + 128]
  }

  /** The specification of the emitter. */
  function Emit(num: nat): seq<byte> {
    Digits(num / 128) + [num % 128]
  }

  /** `xd3_sizeof_uint32_t`. */
  function SizeOf(num: nat): nat {
    if num < 0x80 then 1
    else if num < 0x4000 then 2
    else if num < 0x20_0000 then 3
    else if num < 0x1000_0000 then 4
    else 5
  }

  lemma {:induction false} EmitSize(num: nat)
    requires num < USIZE_LIMIT
    ensures |Emit(num)| == SizeOf(num)
  {
    if num >= 128 {
      EmitSize(num / 128);
    }
  }

  function Power128(n: nat): nat {
    if n == 0 then 1 else 128 * Power128(n - 1)
  }

  lemma {:induction false} ReadDigits(num: nat, tail: seq<byte>, oflow: nat)
    requires num < oflow && tail != []
    ensures ReadFrom(0, Digits(num) + tail, oflow) == ReadFrom(num, tail, oflow)
  {
    if num == 0 {
      assert Digits(num) + tail == tail;
    } else {
      var d := [num % 128 + 128];
      assert Digits(num) + tail == Digits(num / 128) + (d + tail);
      ReadDigits(num / 128, d + tail, oflow);
      assert (d + tail)[1..] == tail;
    }
  }

  /** Reading what was emitted returns the number and leaves what follows. */
  lemma RoundTrip(num: nat, tail: seq<byte>, oflow: nat)
    requires num < 128 * oflow
    ensures ReadFrom(0, Emit(num) + tail, oflow) == Ok(num, tail)
  {
    var d := [num % 128];
    assert Emit(num) + tail == Digits(num / 128) + (d + tail);
    ReadDigits(num / 128, d + tail, oflow);
    assert (d + tail)[1..] == tail;
  }

  /** The number that base-128 digits stand for, the first the most significant. */
  function Positional(s: seq<byte>): nat {
    if s == [] then 0 else Positional(s[..|s| - 1]) * 128 + s[|s| - 1] % 128
  }

  lemma PositionalMore(s: seq<byte>, d: byte)
    ensures Positional(s + [d]) == Positional(s) * 128 + d % 128
  {
    assert (s + [d])[..|s|] == s;
  }

  lemma {:induction false} DigitsValue(num: nat)
    ensures Positional(Digits(num)) == num
  {
    hide Positional;
    if num == 0 {
      NoDigits();
    } else {
      DigitsValue(num / 128);
      LowDigit(num);
      PositionalMore(Digits(num / 128), num % 128 + 128);
    }
  }

  lemma NoDigits()
    ensures Positional([]) == 0
  {
  }

  lemma {:induction false} DigitsShape(num: nat)
    ensures forall i | 0 <= i < |Digits(num)| :: Digits(num)[i] >= 128
    ensures if num == 0 then Digits(num) == [] else Digits(num) != [] && Digits(num)[0] > 128
  {
    if num > 0 {
      DigitsShape(num / 128);
      LowDigit(num);
    }
  }

  lemma LowDigit(num: nat)
    ensures num == (num / 128) * 128 + num % 128 && (num % 128 + 128) % 128 == num % 128
  {
  }

  /** The format (section 2 of RFC 3284): digits in base 128, the first the most
      significant and not zero, the high bit in all but the last. */
  lemma EmitIs(num: nat)
    ensures var s := Emit(num);
      && Positional(s) == num && s != [] && s[|s| - 1] < 128
      && (forall i | 0 <= i < |s| - 1 :: s[i] >= 128) && (|s| > 1 ==> s[0] > 128)
  {
    hide Digits, Positional;
    var q, r := num / 128, num % 128;
    DigitsValue(q);
    DigitsShape(q);
    LowDigit(num);
    PositionalMore(Digits(q), r);
  }

  /** The example given there. */
  lemma EmitExample()
    ensures Emit(123456789) == [0xba, 0xef, 0x9a, 0x15]
  {
    assert Digits(58) == [] + [186];
    assert Digits(7535) == Digits(58) + [239];
    assert Digits(964506) == Digits(7535) + [154];
  }

  /** Chunks: stopping at the end of one buffer and resuming on the next reads
      the same as one contiguous buffer. */
  lemma {:induction false} ReadResumes(part: nat, a: seq<byte>, b: seq<byte>, oflow: nat)
    ensures ReadFrom(part, a + b, oflow) ==
      match ReadFrom(part, a, oflow)
      case Ok(v, rest) => Ok(v, rest + b)
      case Partial(p) => ReadFrom(p, b, oflow)
      case Overflow => Overflow
    decreases |a|
  {
    if a == [] {
      assert a + b == b;
    } else {
      assert (a + b)[1..] == a[1..] + b;
      if part < oflow && a[0] >= 128 {
        ReadResumes(part * 128 + a[0] % 128, a[1..], b, oflow);
      }
    }
  }

  /** The reader without any overflow test: the reference for what it rejects. */
  function Unbounded(part: nat, s: seq<byte>): Read
    decreases |s|
  {
    if s == [] then Partial(part)
    else
      var next := part * 128 + s[0] % 128;
      if s[0] < 128 then Ok(next, s[1..]) else Unbounded(next, s[1..])
  }

  function Value(r: Read): nat {
    match r
    case Ok(v, _) => v
    case Partial(p) => p
    case Overflow => 0
  }

  lemma {:induction false} UnboundedGrows(part: nat, s: seq<byte>)
    ensures !Unbounded(part, s).Overflow?
    ensures part <= Value(Unbounded(part, s)) && (s != [] ==> part * 128 <= Value(Unbounded(part, s)))
    decreases |s|
  {
    if s != [] && s[0] >= 128 {
      UnboundedGrows(part * 128 + s[0] % 128, s[1..]);
    }
  }

  /** A number is rejected exactly when its value does not fit the type. */
  lemma {:induction false} OverflowIff(part: nat, s: seq<byte>, oflow: nat)
    requires part < 128 * oflow
    ensures var u := Unbounded(part, s);
      ReadFrom(part, s, oflow) == if Value(u) < 128 * oflow then u else Overflow
    decreases |s|
  {
    UnboundedGrows(part, s);
    if s != [] && part < oflow && s[0] >= 128 {
      OverflowIff(part * 128 + s[0] % 128, s[1..], oflow);
    }
  }

  /** What is left is the end of what was given. */
  lemma {:induction false} RestIsSuffix(part: nat, s: seq<byte>, oflow: nat)
    ensures var r := ReadFrom(part, s, oflow);
      r.Ok? ==> |r.rest| < |s| && r.rest == s[|s| - |r.rest|..]
    decreases |s|
  {
    if s != [] && part < oflow && s[0] >= 128 {
      RestIsSuffix(part * 128 + s[0] % 128, s[1..], oflow);
    }
  }

  /** No encoding of a value is shorter than the emitted one. */
  lemma {:induction false} EmitShortest(part: nat, s: seq<byte>, oflow: nat)
    requires ReadFrom(part, s, oflow).Ok? && ReadFrom(part, s, oflow).rest == []
    requires ReadFrom(part, s, oflow).value < USIZE_LIMIT
    ensures SizeOf(ReadFrom(part, s, oflow).value) <= |s| + if part == 0 then 0 else SizeOf(part)
    decreases |s|
  {
    if s[0] >= 128 {
      var next := part * 128 + s[0] % 128;
      UnboundedGrows(next, s[1..]);
      OverflowBound(next, s[1..], oflow);
      EmitShortest(next, s[1..], oflow);
    }
  }

  lemma {:induction false} OverflowBound(part: nat, s: seq<byte>, oflow: nat)
    requires ReadFrom(part, s, oflow).Ok?
    ensures ReadFrom(part, s, oflow) == Unbounded(part, s)
    decreases |s|
  {
    if s[0] >= 128 {
      OverflowBound(part * 128 + s[0] % 128, s[1..], oflow);
    }
  }

  /** EMIT_INTEGER_TYPE: fill a ten-byte buffer from the right. */
  method EmitInteger(num: nat) returns (out: seq<byte>)
    requires num < XOFF_LIMIT
    ensures out == Emit(num)
  {
    var buf := new byte[10](i => 0);
    var bufi, left := 10, num;
    assert num < Power128(10) by {
      assert Power128(5) == 0x8_0000_0000;
      assert Power128(10) == 0x8_0000_0000 * 0x8_0000_0000;
    }
    bufi := bufi - 1;
    buf[bufi] := left % 128 + 128;
    left := left / 128;
    while left != 0
      invariant 0 <= bufi <= 9 && 0 <= left < Power128(bufi)
      invariant buf[9] == num % 128 + 128
      invariant Digits(num / 128) == Digits(left) + buf[bufi..9]
    {
      bufi := bufi - 1;
      buf[bufi] := left % 128 + 128;
      assert buf[bufi..9] == [left % 128 + 128] + buf[bufi + 1..9];
      left := left / 128;
    }
    buf[9] := buf[9] - 128;
    out := buf[bufi..];
    assert out == buf[bufi..9] + [buf[9]];
  }

  /** READ_INTEGER_TYPE: `pos` is the cursor `inp`, the end of `s` is `maxp`. */
  method ReadInteger(s: seq<byte>, pos: nat, oflow: nat) returns (ok: bool, val: nat, next: nat)
    requires pos <= |s|
    ensures ok <==> ReadFrom(0, s[pos..], oflow).Ok?
    ensures ok ==> pos <= next <= |s| && ReadFrom(0, s[pos..], oflow) == Ok(val, s[next..])
  {
    val, next := 0, pos;
    while true
      invariant pos <= next <= |s|
      invariant ReadFrom(0, s[pos..], oflow) == ReadFrom(val, s[next..], oflow)
      decreases |s| - next
    {
      if next == |s| || val >= oflow { return false, val, next; }
      var b := s[next];
      assert s[next..][1..] == s[next + 1..];
      next := next + 1;
      val := val * 128 + b % 128;
      if b < 128 { return true, val, next; }
    }
  }
}
