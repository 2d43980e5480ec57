/** Encoder and decoder of the Huffman secondary compressor, for a single group,
    and what several groups share with it. */
module HuffmanCodec {
  import opened Bytes
  import opened Options
  import opened BitIO
  import opened Canonical
  import opened PrefixLengths
  import opened MoveToFront
  import opened RunDecoder
  import opened RunRoundTrip
  import opened Huffman

  /** Write symbols with their codes. */
  method EncodeSymbols(w: BitWriter, clen: seq<nat>, max: nat, codes: array<nat>, cs: seq<nat>)
    requires w.Valid() && Kraft(clen, max) && AllCoded(clen, cs) && codes.Length == |clen|
    requires forall i | 0 <= i < |clen| && clen[i] > 0 :: codes[i] == CodeOf(clen, i)
    modifies w
    ensures w.Valid() && w.Bits() == old(w.Bits()) + CodeString(clen, cs)
  {
    hide Kraft, CodeOf, CodeString, Pow2;
    ghost var b0 := w.Bits();
    StringStart(clen, cs);
    for i := 0 to |cs|
      invariant w.Valid() && w.Bits() + CodeString(clen, cs[i..]) == b0 + CodeString(clen, cs)
    {
      StringStep(clen, max, cs, i);
      w.EncodeBits(clen[cs[i]], codes[cs[i]]);
    }
  }

  lemma StringStart(clen: seq<nat>, cs: seq<nat>)
    requires AllCoded(clen, cs)
    ensures cs[0..] == cs && CodeString(clen, cs[|cs|..]) == []
  {
  }

  lemma StringStep(clen: seq<nat>, max: nat, cs: seq<nat>, i: nat)
    requires Kraft(clen, max) && AllCoded(clen, cs) && i < |cs|
    ensures CodeString(clen, cs[i..]) == ToBits(CodeOf(clen, cs[i]), clen[cs[i]]) + CodeString(clen, cs[i + 1..])
    ensures CodeOf(clen, cs[i]) < Pow2(clen[cs[i]])
  {
    CodeFits(clen, cs[i], max);
    assert cs[i..][1..] == cs[i + 1..] && cs[i..][0] == cs[i];
  }

  /** Every symbol that was counted has a code. */
  lemma CountedCoded(cs: seq<nat>, freq: seq<nat>, clen: seq<nat>, max: nat)
    requires CompleteCode(freq, clen, max) && forall c | 0 <= c < |freq| :: freq[c] == Occurrences(cs, c)
    requires forall k | 0 <= k < |cs| :: cs[k] < |freq|
    ensures AllCoded(clen, cs) && Kraft(clen, max)
  {
    forall k | 0 <= k < |cs| ensures clen[cs[k]] > 0 {
      OccurrencesIn(cs, cs[k]);
      assert freq[cs[k]] > 0;
    }
  }

  /** What `djw_build_prefix` makes of how often each of `n` symbols occurs. */
  ghost predicate BuiltOn(cs: seq<nat>, n: nat, clen: seq<nat>, max: nat) {
    Built(Frequencies(cs, n), clen, max)
  }

  lemma BuiltIs(cs: seq<nat>, freq: seq<nat>, clen: seq<nat>, max: nat)
    requires Built(freq, clen, max) && forall c | 0 <= c < |freq| :: freq[c] == Occurrences(cs, c)
    ensures BuiltOn(cs, |freq|, clen, max)
  {
    hide Built, Occurrences;
    assert freq == Frequencies(cs, |freq|);
  }

  /** `djw_encode_prefix`; `cl` are the lengths of the code for code lengths. */
  method EncodePrefix(w: BitWriter, symbols: seq<nat>) returns (ghost cl: seq<nat>)
    requires w.Valid() && symbols != [] && Within(symbols, ClenMtf())
    modifies w
    ensures w.Valid() && |cl| == DJW_TOTAL_CODES && Kraft(cl, DJW_MAX_CLCLEN)
    ensures AllCoded(cl, Codes(symbols, ClenMtf(), 0))
    ensures BuiltOn(Codes(symbols, ClenMtf(), 0), DJW_TOTAL_CODES, cl, DJW_MAX_CLCLEN)
    ensures w.Bits() == old(w.Bits()) + (ClclenBits(cl) + CodeString(cl, Codes(symbols, ClenMtf(), 0)))
  {
    hide Codes, Kraft, ClenMtf, Occurrences, CodeString, CompleteCode, AllCoded, CodeOf, ClclenBits, FewSymbols, Cost, CodesFor,
      WithSecond, Overflows, Unpack, Lsb, Pow2, ToBits, Built, BuiltOn;
    ClenMtfIs();
    var mtf := InitClenMtf();
    var mtfsym, clfreq := ComputeMtf12(symbols, mtf, DJW_MAX_CODELEN);
    PrefixCounts(symbols, clfreq[..]);
    CallersFit(2);
    var clclen, _ := BuildPrefix(clfreq[..], DJW_MAX_CLCLEN);
    CountedCoded(mtfsym, clfreq[..], clclen, DJW_MAX_CLCLEN);
    BuiltIs(mtfsym, clfreq[..], clclen, DJW_MAX_CLCLEN);
    LengthsFit(clfreq[..], clclen, DJW_MAX_CLCLEN);
    var clcode := BuildCodes(clclen, DJW_MAX_CLCLEN);
    EncodeClclen(w, clclen);
    AllCodedIs(clclen, mtfsym);
    EncodeSymbols(w, clclen, DJW_MAX_CLCLEN, clcode, mtfsym);
    cl := clclen;
  }

  lemma AllCodedIs(clen: seq<nat>, cs: seq<nat>)
    requires AllCoded(clen, cs)
    ensures forall k | 0 <= k < |cs| :: cs[k] < |clen|
  {
  }

  lemma LengthsFit(freq: seq<nat>, clen: seq<nat>, max: nat)
    requires CompleteCode(freq, clen, max)
    ensures |clen| == |freq| && forall i | 0 <= i < |clen| :: clen[i] <= max
  {
  }

  lemma PrefixCounts(symbols: seq<nat>, freq: seq<nat>)
    requires symbols != [] && Within(symbols, ClenMtf()) && |freq| == DJW_TOTAL_CODES
    requires forall c | 0 <= c < |freq| :: freq[c] == Occurrences(Codes(symbols, ClenMtf(), 0), c)
    ensures forall k | 0 <= k < |Codes(symbols, ClenMtf(), 0)| :: Codes(symbols, ClenMtf(), 0)[k] < DJW_TOTAL_CODES
    ensures exists i :: 0 <= i < |freq| && freq[i] > 0
  {
    var cs := Codes(symbols, ClenMtf(), 0);
    ClenMtfIs();
    CodesSize(symbols, ClenMtf(), 0);
    assert forall k | 0 <= k < |cs| :: cs[k] in cs;
    CodesSome(symbols, ClenMtf());
    assert cs[0] in cs;
    OccurrencesIn(cs, cs[0]);
    assert freq[cs[0]] > 0;
  }

  /** The number of lengths to write. */
  method NumToEncode(clclen: seq<nat>) returns (n: nat)
    requires |clclen| == DJW_TOTAL_CODES
    ensures n == Written(clclen, DJW_TOTAL_CODES)
  {
    n := DJW_TOTAL_CODES;
    while n > DJW_EXTRA_12OFFSET && clclen[n - 1] == 0
      invariant DJW_EXTRA_12OFFSET <= n <= DJW_TOTAL_CODES
      invariant Written(clclen, n) == Written(clclen, DJW_TOTAL_CODES)
    {
      n := n - 1;
    }
  }

  /** The lengths of the code for code lengths. */
  method EncodeClclen(w: BitWriter, clclen: seq<nat>)
    requires w.Valid() && |clclen| == DJW_TOTAL_CODES && forall i | 0 <= i < |clclen| :: clclen[i] <= DJW_MAX_CLCLEN
    modifies w
    ensures w.Valid() && w.Bits() == old(w.Bits()) + ClclenBits(clclen)
  {
    hide Pow2, ToBits, Nibbles, Written, Unpack, Lsb;
    var n := NumToEncode(clclen);
    WrittenIs(clclen);
    NibblesStep(clclen, 0);
    ghost var b := w.Bits();
    w.EncodeBits(DJW_EXTRA_CODE_BITS, n - DJW_EXTRA_12OFFSET);
    ghost var head := ToBits(n - DJW_EXTRA_12OFFSET, DJW_EXTRA_CODE_BITS);
    for i := 0 to n
      invariant w.Valid() && w.Bits() == b + (head + Nibbles(clclen[..i]))
    {
      NibblesStep(clclen, i);
      w.EncodeBits(DJW_CLCLEN_BITS, clclen[i]);
      assert head + Nibbles(clclen[..i + 1]) == (head + Nibbles(clclen[..i])) + ToBits(clclen[i], DJW_CLCLEN_BITS);
    }
  }

  lemma NibblesStep(cl: seq<nat>, i: nat)
    requires i < |cl| && cl[i] <= DJW_MAX_CLCLEN
    ensures Nibbles(cl[..i + 1]) == Nibbles(cl[..i]) + ToBits(cl[i], DJW_CLCLEN_BITS) && Nibbles(cl[..0]) == []
    ensures cl[i] < Pow2(DJW_CLCLEN_BITS)
  {
    assert cl[..i + 1][..i] == cl[..i];
    assert Pow2(4) == 16;
  }

  /** `djw_count_freqs`. */
  method CountFreqs(input: seq<byte>) returns (freq: array<nat>)
    ensures fresh(freq) && freq.Length == ALPHABET_SIZE && Counted(freq, input)
  {
    hide Occurrences;
    freq := new nat[ALPHABET_SIZE](_ => 0);
    NoOccurrences();
    for i := 0 to |input|
      invariant Counted(freq, input[..i])
    {
      OccurrencesSnoc(input[..i], input[i]);
      assert input[..i + 1] == input[..i] + [input[i]];
      freq[input[i]] := freq[input[i]] + 1;
    }
    assert input[..|input|] == input;
  }

  lemma {:induction false} OccurrencesCons(x: nat, t: seq<nat>, c: nat)
    ensures Occurrences([x] + t, c) == Occurrences(t, c) + if x == c then 1 else 0
  {
    var s := [x] + t;
    if t == [] {
      assert s[..0] == [];
    } else {
      assert s[..|s| - 1] == [x] + t[..|t| - 1];
      OccurrencesCons(x, t[..|t| - 1], c);
    }
  }

  lemma {:induction false} CostOneMore(f: seq<nat>, g: seq<nat>, clen: seq<nat>, c: nat, i: nat)
    requires i <= |f| == |g| == |clen| && c < |f|
    requires forall k | 0 <= k < |f| :: g[k] == f[k] + if k == c then 1 else 0
    ensures Cost(g, clen, i) == Cost(f, clen, i) + if c < i then clen[c] else 0
  {
    if i > 0 {
      CostOneMore(f, g, clen, c, i - 1);
      var k, l := f[i - 1], clen[i - 1];
      assert l * (k + 1) == l * k + l;
    }
  }

  lemma {:induction false} CostNone(f: seq<nat>, clen: seq<nat>, i: nat)
    requires i <= |f| == |clen| && forall k | 0 <= k < |f| :: f[k] == 0
    ensures Cost(f, clen, i) == 0
  {
    if i > 0 { CostNone(f, clen, i - 1); }
  }

  function Frequencies(cs: seq<nat>, n: nat): (f: seq<nat>)
    ensures |f| == n && forall c | 0 <= c < n :: f[c] == Occurrences(cs, c)
  {
    seq(n, c requires 0 <= c < n => Occurrences(cs, c))
  }

  /** The bits that `djw_build_prefix` promises are the bits that the symbols
      take. */
  lemma {:induction false} CostIsSize(cs: seq<nat>, clen: seq<nat>)
    requires AllCoded(clen, cs)
    ensures Cost(Frequencies(cs, |clen|), clen, |clen|) == |CodeString(clen, cs)|
  {
    hide Occurrences, Cost;
    NoOccurrences();
    if cs == [] {
      CostNone(Frequencies([], |clen|), clen, |clen|);
    } else {
      CostIsSize(cs[1..], clen);
      assert cs == [cs[0]] + cs[1..];
      forall c | 0 <= c < |clen| ensures Occurrences(cs, c) == Occurrences(cs[1..], c) + if cs[0] == c then 1 else 0 {
        OccurrencesCons(cs[0], cs[1..], c);
      }
      CostOneMore(Frequencies(cs[1..], |clen|), Frequencies(cs, |clen|), clen, cs[0], |clen|);
    }
  }

  lemma CostOfData(input: seq<byte>, freq: seq<nat>, clen: seq<nat>)
    requires AllCoded(clen, input) && |freq| == |clen| && forall c | 0 <= c < |freq| :: freq[c] == Occurrences(input, c)
    ensures forall k | 0 <= k < |input| :: input[k] < |clen|
    ensures Cost(freq, clen, |clen|) == |CodeString(clen, input)|
  {
    CostIsSize(input, clen);
    assert freq == Frequencies(input, |clen|);
  }

  const XD3_ALLOCSIZE := 0x4000

  /** How many of `n` bytes of output are on the last page. */
  function OnPage(n: nat): nat {
    if n == 0 then 0 else (n - 1) % XD3_ALLOCSIZE + 1
  }

  datatype Encoded = NoSecond | Output(bytes: seq<byte>)

  /** The bits that precede the data. */
  ghost function HeadBits(clen: seq<nat>, cl: seq<nat>): seq<bool>
    requires |cl| == DJW_TOTAL_CODES && Within(clen, ClenMtf()) && AllCoded(cl, Codes(clen, ClenMtf(), 0))
  {
    ToBits(0, DJW_GROUP_BITS) + (ClclenBits(cl) + CodeString(cl, Codes(clen, ClenMtf(), 0)))
  }

  /** Whether the compressed data, with `spent` bytes before it on the page, save
      too little. */
  ghost predicate SavesLittle(input: seq<byte>, clen: seq<nat>, spent: nat)
    requires AllCoded(clen, input)
  {
    |CodeString(clen, input)| + 8 * spent + EFFICIENCY_BITS >= 8 * |input|
  }

  /** The code for the data, and how many bits the data will take. */
  method DataCode(input: seq<byte>, freq: seq<nat>) returns (clen: seq<nat>, code: array<nat>, outputBits: nat)
    requires input != [] && |freq| == ALPHABET_SIZE && forall c | 0 <= c < |freq| :: freq[c] == Occurrences(input, c)
    ensures |clen| == ALPHABET_SIZE && Kraft(clen, DJW_MAX_CODELEN) && AllCoded(clen, input)
    ensures BuiltOn(input, ALPHABET_SIZE, clen, DJW_MAX_CODELEN)
    ensures forall i | 0 <= i < |clen| :: clen[i] <= DJW_MAX_CODELEN
    ensures fresh(code) && code.Length == |clen|
    ensures forall i | 0 <= i < |clen| && clen[i] > 0 :: code[i] == CodeOf(clen, i)
    ensures (forall k | 0 <= k < |input| :: input[k] < |clen|) && outputBits == |CodeString(clen, input)|
  {
    hide Kraft, Occurrences, CompleteCode, CodeOf, FewSymbols, CodeString, AllCoded, Cost, Built, BuiltOn, Overflows, CodesFor, WithSecond;
    DataCounts(input, freq);
    CallersFit(2);
    clen, outputBits := BuildPrefix(freq, DJW_MAX_CODELEN);
    CountedCoded(input, freq, clen, DJW_MAX_CODELEN);
    BuiltIs(input, freq, clen, DJW_MAX_CODELEN);
    LengthsFit(freq, clen, DJW_MAX_CODELEN);
    CostOfData(input, freq, clen);
    code := BuildCodes(clen, DJW_MAX_CODELEN);
  }

  /** `xd3_encode_huff` for one group; `before` bytes are in the output page
      already. The tables are `clen` and `cl`. The encoder gives up exactly when
      little is saved, before or after writing the tables. */
  method EncodeSingle(input: seq<byte>, inefficient: bool, before: nat)
      returns (r: Encoded, ghost clen: seq<nat>, ghost cl: seq<nat>)
    requires input != []
    ensures AllCoded(clen, input) && BuiltOn(input, ALPHABET_SIZE, clen, DJW_MAX_CODELEN)
    ensures Codebook(input, clen, cl) ==> BuiltOn(Codes(clen, ClenMtf(), 0), DJW_TOTAL_CODES, cl, DJW_MAX_CLCLEN)
    ensures r.NoSecond? ==> !inefficient
    ensures r.NoSecond? ==>
      SavesLittle(input, clen, 0)
      || (Codebook(input, clen, cl) && SavesLittle(input, clen, OnPage(before + |HeadBits(clen, cl)| / 8)))
    ensures r.Output? ==> Codebook(input, clen, cl)
    ensures r.Output? && !inefficient ==>
      !SavesLittle(input, clen, 0) && !SavesLittle(input, clen, OnPage(before + |HeadBits(clen, cl)| / 8))
    ensures r.Output? ==> exists pad: nat ::
      pad < 8 && Unpack(r.bytes) == ToBits(0, DJW_GROUP_BITS) + OneBits(input, clen, cl) + Zeros(pad)
  {
    hide Kraft, ClenMtf, Occurrences, CompleteCode, CodeOf, ClclenBits, FewSymbols, Pow2, ToBits, Unpack, Codes, CodeString,
      OneBits, AllCoded, Codebook, HeadBits, Lsb, OnPage, BuiltOn;
    clen, cl := [], [];
    var w := new BitWriter();
    var freq := CountFreqs(input);
    GroupBits();
    w.EncodeBits(DJW_GROUP_BITS, 0);
    var lens, code, outputBits := DataCode(input, freq[..]);
    clen := lens;
    NoCodebook(input, clen);
    if outputBits + EFFICIENCY_BITS >= |input| * 8 && !inefficient {
      return NoSecond, clen, cl;
    }
    LengthsWithin(lens);
    cl := EncodePrefix(w, lens);
    CodebookOk(input, lens, cl);
    if outputBits + 8 * OnPage(before + |w.out|) + EFFICIENCY_BITS >= |input| * 8 && !inefficient {
      return NoSecond, clen, cl;
    }
    EncodeSymbols(w, lens, DJW_MAX_CODELEN, code, input);
    w.FlushBits();
    return Output(w.out), clen, cl;
  }

  lemma NoCodebook(input: seq<nat>, clen: seq<nat>)
    ensures !Codebook(input, clen, [])
  {
  }

  lemma GroupBits()
    ensures 0 < Pow2(DJW_GROUP_BITS) && Value(ToBits(0, DJW_GROUP_BITS)) == 0
  {
    ValueToBits(0, DJW_GROUP_BITS);
  }

  lemma DataCounts(input: seq<byte>, freq: seq<nat>)
    requires input != [] && |freq| == ALPHABET_SIZE && forall c | 0 <= c < |freq| :: freq[c] == Occurrences(input, c)
    ensures exists i :: 0 <= i < |freq| && freq[i] > 0
  {
    OccurrencesIn(input, input[0]);
    assert freq[input[0]] > 0;
  }

  lemma LengthsWithin(clen: seq<nat>)
    requires forall i | 0 <= i < |clen| :: clen[i] <= DJW_MAX_CODELEN
    ensures Within(clen, ClenMtf())
  {
    ClenMtfIs();
  }

  lemma CodebookOk(input: seq<nat>, clen: seq<nat>, cl: seq<nat>)
    requires |clen| == ALPHABET_SIZE && Kraft(clen, DJW_MAX_CODELEN) && AllCoded(clen, input)
    requires |cl| == DJW_TOTAL_CODES && Kraft(cl, DJW_MAX_CLCLEN)
    requires Within(clen, ClenMtf()) && AllCoded(cl, Codes(clen, ClenMtf(), 0))
    ensures Codebook(input, clen, cl)
    ensures forall k | 0 <= k < |input| :: input[k] < |clen|
    ensures HeadBits(clen, cl) == ToBits(0, DJW_GROUP_BITS) + (ClclenBits(cl) + CodeString(cl, Codes(clen, ClenMtf(), 0)))
    ensures HeadBits(clen, cl) + CodeString(clen, input) == ToBits(0, DJW_GROUP_BITS) + OneBits(input, clen, cl)
  {
    hide Kraft, ClenMtf, ClclenBits, ToBits, Codes, CodeString;
    var g, p, q := ToBits(0, DJW_GROUP_BITS), ClclenBits(cl), CodeString(cl, Codes(clen, ClenMtf(), 0));
    var x := CodeString(clen, input);
    assert (g + (p + q)) + x == g + (p + (q + x));
  }

  method AnyCode(clen: seq<nat>) returns (any: bool)
    ensures any <==> HasCode(clen)
  {
    any := false;
    for i := 0 to |clen|
      invariant any <==> exists j :: 0 <= j < i && clen[j] > 0
    {
      if clen[i] > 0 { any := true; }
    }
  }

  /** `djw_decode_clclen`, with the tables of the code for code lengths. */
  method DecodeClclen(r: BitReader) returns (t: Option<Tables>, ghost cl: seq<nat>)
    requires r.Valid()
    modifies r
    ensures r.Valid()
    ensures var d := ReadClclen(old(r.Rest()));
      if d.Values? && HasCode(d.vals)
      then cl == d.vals && t.Some? && TablesOk(cl, t.value) && |t.value.inorder| == |cl| && r.Rest() == d.rest && r.used > 0
      else t == None
  {
    hide Value, TablesOk, HasCode, ReadClclen, ReadNibbles;
    ghost var b := r.Rest();
    cl := [];
    ClclenReads(b);
    var numCodes := r.DecodeBits(DJW_EXTRA_CODE_BITS);
    if numCodes == None {
      return None, cl;
    }
    var n := numCodes.value + DJW_EXTRA_12OFFSET;
    ghost var b' := r.Rest();
    var lens := DecodeNibbles(r, n);
    if lens == None {
      return None, cl;
    }
    var clclen := lens.value + Nothing(DJW_TOTAL_CODES - n);
    var any := AnyCode(clclen);
    if !any {
      return None, cl;
    }
    NibblesSmall(b', n);
    var tables := BuildDecoder(clclen, DJW_MAX_CLCLEN);
    return Some(tables), clclen;
  }

  /** Read `n` numbers of four bits. */
  method DecodeNibbles(r: BitReader, n: nat) returns (vs: Option<seq<nat>>)
    requires r.Valid() && r.used > 0
    modifies r
    ensures r.Valid() && (vs.Some? <==> DJW_CLCLEN_BITS * n <= |old(r.Rest())|)
    ensures vs.Some? ==> vs.value == ReadNibbles(old(r.Rest()), n)
    ensures vs.Some? ==> r.Rest() == old(r.Rest())[DJW_CLCLEN_BITS * n..] && r.used > 0
  {
    hide Value, ReadNibbles;
    ghost var b := r.Rest();
    var lens: seq<nat> := [];
    NibblesStart(b);
    for i := 0 to n
      invariant r.Valid() && r.used > 0 && DJW_CLCLEN_BITS * i <= |b| && r.Rest() == b[DJW_CLCLEN_BITS * i..]
      invariant lens == ReadNibbles(b, i)
    {
      var value := r.DecodeBits(DJW_CLCLEN_BITS);
      if value == None {
        return None;
      }
      NextNibble(b, i);
      lens := lens + [value.value];
    }
    vs := Some(lens);
  }

  lemma ClclenReads(b: seq<bool>)
    ensures |b| < DJW_EXTRA_CODE_BITS ==> ReadClclen(b) == Bad
    ensures |b| >= DJW_EXTRA_CODE_BITS ==>
      var n := Value(b[..DJW_EXTRA_CODE_BITS]) + DJW_EXTRA_12OFFSET;
      var b' := b[DJW_EXTRA_CODE_BITS..];
      && n <= DJW_TOTAL_CODES
      && (DJW_CLCLEN_BITS * n > |b'| ==> ReadClclen(b) == Bad)
      && (DJW_CLCLEN_BITS * n <= |b'| ==>
            ReadClclen(b) == Values(ReadNibbles(b', n) + Nothing(DJW_TOTAL_CODES - n), b'[DJW_CLCLEN_BITS * n..]))
  {
    if |b| >= DJW_EXTRA_CODE_BITS { FourBits(b[..4]); }
  }

  lemma NibblesStart(b: seq<bool>)
    ensures ReadNibbles(b, 0) == [] && b[0..] == b
  {
  }

  lemma NextNibble(b: seq<bool>, i: nat)
    requires DJW_CLCLEN_BITS * (i + 1) <= |b|
    ensures ReadNibbles(b, i + 1) == ReadNibbles(b, i) + [Value(b[DJW_CLCLEN_BITS * i..][..DJW_CLCLEN_BITS])]
    ensures b[DJW_CLCLEN_BITS * i..][DJW_CLCLEN_BITS..] == b[DJW_CLCLEN_BITS * (i + 1)..]
  {
    assert b[DJW_CLCLEN_BITS * i..][..DJW_CLCLEN_BITS] == b[DJW_CLCLEN_BITS * i..DJW_CLCLEN_BITS * (i + 1)];
  }

  lemma {:induction false} NibblesSmall(b: seq<bool>, n: nat)
    requires DJW_CLCLEN_BITS * n <= |b|
    ensures forall i | 0 <= i < n :: ReadNibbles(b, n)[i] <= DJW_MAX_CLCLEN
  {
    if n > 0 {
      NibblesSmall(b, n - 1);
      FourBits(b[DJW_CLCLEN_BITS * (n - 1)..DJW_CLCLEN_BITS * n]);
    }
  }

  /** Whatever is decoded comes from the list, or is a zero left out. */
  lemma {:induction false} ReadWithin(clen: seq<nat>, max: nat, elts: nat, skip: nat, b: seq<bool>, d: State)
    requires Usable(clen, elts, d) && forall v | v in d.vals :: v in d.list || v == 0
    ensures var r := Read12(clen, max, elts, skip, b, d);
      r.Values? ==> |r.vals| == elts && forall v | v in r.vals :: v in d.list || v == 0
    decreases elts - |d.vals|, if d.rep == 0 && d.mtf == 0 then 1 else 0
  {
    hide Decode, Read12, Front;
    Read12Step(clen, max, elts, skip, b, d);
    var n := |d.vals|;
    if n == elts {
    } else if Skipped(d.vals, n, skip) {
      ReadWithin(clen, max, elts, skip, b, d.(vals := d.vals + [0]));
    } else if d.rep != 0 {
      ReadWithin(clen, max, elts, skip, b, d.(vals := d.vals + [d.list[0]], rep := d.rep - 1));
    } else if d.mtf != 0 {
      FrontWithin(d.list, d.mtf);
      ReadWithin(clen, max, elts, skip, b, d.(vals := d.vals + [d.list[d.mtf]], mtf := 0, list := Front(d.list, d.mtf)));
    } else {
      var c := Decode(clen, max, b);
      if c.Symbol? {
        AfterUsable(clen, max, elts, d, b);
        ReadWithin(clen, max, elts, skip, c.rest, AfterCode(d, c.sym));
      }
    }
  }

  lemma FrontWithin(list: seq<nat>, j: nat)
    requires j < |list|
    ensures |Front(list, j)| == |list| && forall x :: x in Front(list, j) <==> x in list
  {
  }

  /** One group's code lengths, as tables. */
  method DecodeLengths(r: BitReader, t: Tables, ghost cl: seq<nat>) returns (d: Option<Tables>, ghost clen: seq<nat>)
    requires r.Valid() && r.used > 0 && TablesOk(cl, t) && |t.inorder| == |cl| == DJW_TOTAL_CODES
    requires |cl| <= |ClenMtf()| + 1
    modifies r
    ensures r.Valid()
    ensures var p := Read12(cl, MaxLen(cl), ALPHABET_SIZE, ALPHABET_SIZE, old(r.Rest()), State([], 0, 0, 0, ClenMtf()));
      if p.Values? && HasCode(p.vals)
      then clen == p.vals && d.Some? && TablesOk(clen, d.value) && |clen| == |d.value.inorder| == ALPHABET_SIZE
           && r.Rest() == p.rest && r.used > 0
      else d == None
  {
    hide TablesOk, HasCode, Read12, ClenMtf, MaxLen;
    clen := [];
    ClenMtfIs();
    TablesMax(cl, t);
    ghost var b := r.Rest();
    var mtf := InitClenMtf();
    ReadWithin(cl, t.maxLen, ALPHABET_SIZE, ALPHABET_SIZE, b, State([], 0, 0, 0, ClenMtf()));
    var values := Decode12(r, t, cl, DJW_TOTAL_CODES, mtf, ALPHABET_SIZE, ALPHABET_SIZE);
    if values == None {
      return None, clen;
    }
    var any := AnyCode(values.value);
    if !any {
      return None, clen;
    }
    ValuesSmall(values.value);
    var tables := BuildDecoder(values.value, DJW_MAX_CODELEN);
    return Some(tables), values.value;
  }

  lemma TablesMax(cl: seq<nat>, t: Tables)
    requires TablesOk(cl, t)
    ensures t.maxLen == MaxLen(cl)
  {
  }

  lemma ValuesSmall(vs: seq<nat>)
    requires forall v | v in vs :: v in ClenMtf() || v == 0
    ensures forall i | 0 <= i < |vs| :: vs[i] <= DJW_MAX_CODELEN
  {
    ClenMtfIs();
    forall i | 0 <= i < |vs| ensures vs[i] <= DJW_MAX_CODELEN {
      assert vs[i] in vs;
    }
  }

  /** `xd3_decode_huff` for one group, after the number of groups: `n` bytes of
      output. */
  method DecodeSingle(reader: BitReader, n: nat) returns (out: Option<seq<byte>>)
    requires reader.Valid()
    modifies reader
    ensures reader.Valid()
    ensures var d := ReadOne(old(reader.Rest()), n);
      if d.Values? then out.Some? && out.value == d.vals && reader.Rest() == d.rest && reader.used > 0 else out == None
  {
    hide TablesOk, HasCode, Read12, ClenMtf, MaxLen, ReadClclen, ReadSymbols;
    ClenMtfIs();
    var ct, cl := DecodeClclen(reader);
    if ct == None {
      return None;
    }
    var t, clen := DecodeLengths(reader, ct.value, cl);
    if t == None {
      return None;
    }
    out := DecodeSector(reader, t.value, clen, n);
  }

  /** The symbols of a sector. */
  method DecodeSector(reader: BitReader, t: Tables, ghost clen: seq<nat>, n: nat) returns (out: Option<seq<byte>>)
    requires reader.Valid() && reader.used > 0 && TablesOk(clen, t) && |clen| == |t.inorder| == ALPHABET_SIZE
    modifies reader
    ensures reader.Valid()
    ensures var d := ReadSymbols(clen, MaxLen(clen), old(reader.Rest()), n, []);
      if d.Values? then out.Some? && out.value == d.vals && reader.Rest() == d.rest && reader.used > 0 else out == None
  {
    hide TablesOk, MaxLen, Decode;
    TablesMax(clen, t);
    ghost var d := ReadSymbols(clen, MaxLen(clen), reader.Rest(), n, []);
    var bytes: seq<byte> := [];
    for k := 0 to n
      invariant reader.Valid() && reader.used > 0
      invariant d == ReadSymbols(clen, MaxLen(clen), reader.Rest(), n - k, bytes)
    {
      var sym := DecodeSymbol(reader, t, clen, ALPHABET_SIZE);
      if sym == None {
        return None;
      }
      bytes := bytes + [sym.value];
    }
    out := Some(bytes);
  }
}
