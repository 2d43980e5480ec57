/** The Huffman secondary compressor, for a single group. */
module Huffman {
  import opened BitIO
  import opened Canonical
  import opened MoveToFront
  import opened RunDecoder
  import opened RunRoundTrip

  const ALPHABET_SIZE := 256
  const DJW_TOTAL_CODES := DJW_MAX_CODELEN + 2
  const DJW_EXTRA_12OFFSET := 7
  const DJW_EXTRA_CODE_BITS := 4
  const DJW_MAX_CLCLEN := 15
  const DJW_CLCLEN_BITS := 4
  const DJW_GROUP_BITS := 3
  const EFFICIENCY_BITS := 16

  const ENCODE_12BASIC: seq<nat> := [4, 5, 6, 7, 8]
  const ENCODE_12EXTRA: seq<nat> := [9, 10, 3, 11, 2, 12, 13, 1, 14, 15, 16, 17, 18, 19, 20]

  /** The code lengths in their initial order. */
  function ClenMtf(): (l: seq<nat>) {
    [0] + ENCODE_12BASIC + ENCODE_12EXTRA
  }

  lemma ClenMtfIs()
    ensures ClenMtf() == [0, 4, 5, 6, 7, 8, 9, 10, 3, 11, 2, 12, 13, 1, 14, 15, 16, 17, 18, 19, 20]
    ensures |ClenMtf()| == DJW_MAX_CODELEN + 1 && forall x | 0 <= x <= DJW_MAX_CODELEN :: x in ClenMtf()
    ensures forall x | x in ClenMtf() :: x <= DJW_MAX_CODELEN
  {
    var l := ClenMtf();
    assert l == [0, 4, 5, 6, 7, 8, 9, 10, 3, 11, 2, 12, 13, 1, 14, 15, 16, 17, 18, 19, 20];
  }

  /** `djw_init_clen_mtf_1_2`. */
  method InitClenMtf() returns (clmtf: array<nat>)
    ensures fresh(clmtf) && clmtf[..] == ClenMtf()
  {
    clmtf := new nat[DJW_MAX_CODELEN + 1];
    var n := 0;
    clmtf[n] := 0;
    n := n + 1;
    for i := 0 to |ENCODE_12BASIC|
      invariant n == i + 1 && clmtf[..n] == [0] + ENCODE_12BASIC[..i]
    {
      clmtf[n] := ENCODE_12BASIC[i];
      n := n + 1;
    }
    assert ENCODE_12BASIC[..|ENCODE_12BASIC|] == ENCODE_12BASIC;
    for i := 0 to |ENCODE_12EXTRA|
      invariant n == i + 6 && clmtf[..n] == [0] + ENCODE_12BASIC + ENCODE_12EXTRA[..i]
    {
      clmtf[n] := ENCODE_12EXTRA[i];
      n := n + 1;
    }
    assert ENCODE_12EXTRA[..|ENCODE_12EXTRA|] == ENCODE_12EXTRA;
    assert clmtf[..] == clmtf[..n];
  }

  /** How many of the lengths are written: zeros at the end are not. */
  function Written(cl: seq<nat>, n: nat): (w: nat)
    requires DJW_EXTRA_12OFFSET <= n <= |cl|
    ensures DJW_EXTRA_12OFFSET <= w <= n && forall i | w <= i < n :: cl[i] == 0
  {
    if n > DJW_EXTRA_12OFFSET && cl[n - 1] == 0 then Written(cl, n - 1) else n
  }

  /** Numbers of four bits each. */
  function Nibbles(vs: seq<nat>): seq<bool> {
    if vs == [] then [] else Nibbles(vs[..|vs| - 1]) + ToBits(vs[|vs| - 1], DJW_CLCLEN_BITS)
  }

  function ReadNibbles(b: seq<bool>, k: nat): (vs: seq<nat>)
    requires DJW_CLCLEN_BITS * k <= |b|
    ensures |vs| == k
  {
    if k == 0 then []
    else ReadNibbles(b, k - 1) + [Value(b[DJW_CLCLEN_BITS * (k - 1)..DJW_CLCLEN_BITS * k])]
  }

  lemma {:induction false} NibblesBack(vs: seq<nat>, rest: seq<bool>)
    requires forall i | 0 <= i < |vs| :: vs[i] < 16
    ensures |Nibbles(vs)| == DJW_CLCLEN_BITS * |vs|
    ensures ReadNibbles(Nibbles(vs) + rest, |vs|) == vs
  {
    hide Value, ToBits;
    if vs != [] {
      var n := |vs| - 1;
      var v := ToBits(vs[n], DJW_CLCLEN_BITS);
      NibblesBack(vs[..n], v + rest);
      assert Nibbles(vs) + rest == Nibbles(vs[..n]) + (v + rest);
      assert (Nibbles(vs) + rest)[DJW_CLCLEN_BITS * n..DJW_CLCLEN_BITS * (n + 1)] == v;
      assert Pow2(4) == 16;
      ValueToBits(vs[n], DJW_CLCLEN_BITS);
      assert vs == vs[..n] + [vs[n]];
    }
  }

  /** The lengths of the code for code lengths, as `djw_encode_prefix` writes
      them. */
  function ClclenBits(cl: seq<nat>): seq<bool>
    requires |cl| == DJW_TOTAL_CODES
  {
    var w := Written(cl, DJW_TOTAL_CODES);
    ToBits(w - DJW_EXTRA_12OFFSET, DJW_EXTRA_CODE_BITS) + Nibbles(cl[..w])
  }

  lemma FourBits(b: seq<bool>)
    requires |b| == 4
    ensures Value(b) < 16
  {
    var x, y, z := b[..3], b[..2], b[..1];
    assert x[..2] == y && y[..1] == z && z[..0] == [];
    assert Value(b) == 2 * Value(x) + BitValue(b[3]);
    assert Value(x) == 2 * Value(y) + BitValue(x[2]);
    assert Value(y) == 2 * Value(z) + BitValue(y[1]);
    assert Value(z) == 2 * Value([]) + BitValue(z[0]);
  }

  /** `djw_decode_clclen` on the bits to come. */
  function ReadClclen(b: seq<bool>): (r: Result)
    ensures r.Values? ==> |r.vals| == DJW_TOTAL_CODES
  {
    if |b| < DJW_EXTRA_CODE_BITS then Bad
    else
      FourBits(b[..4]);
      var n := Value(b[..DJW_EXTRA_CODE_BITS]) + DJW_EXTRA_12OFFSET;
      var b' := b[DJW_EXTRA_CODE_BITS..];
      if DJW_CLCLEN_BITS * n > |b'| then Bad
      else Values(ReadNibbles(b', n) + Nothing(DJW_TOTAL_CODES - n), b'[DJW_CLCLEN_BITS * n..])
  }

  function Nothing(n: nat): (z: seq<nat>) {
    seq(n, _ => 0)
  }

  lemma ClclenBack(cl: seq<nat>, rest: seq<bool>)
    requires |cl| == DJW_TOTAL_CODES && forall i | 0 <= i < |cl| :: cl[i] <= DJW_MAX_CLCLEN
    ensures ReadClclen(ClclenBits(cl) + rest) == Values(cl, rest)
  {
    hide Value, ToBits, Nibbles, ReadNibbles, Written;
    var w := Written(cl, DJW_TOTAL_CODES);
    var head, body := ToBits(w - DJW_EXTRA_12OFFSET, DJW_EXTRA_CODE_BITS), Nibbles(cl[..w]);
    var b := ClclenBits(cl) + rest;
    NibblesBack(cl[..w], rest);
    WrittenIs(cl);
    assert b[..DJW_EXTRA_CODE_BITS] == head && b[DJW_EXTRA_CODE_BITS..] == body + rest;
    assert (body + rest)[DJW_CLCLEN_BITS * w..] == rest;
    assert cl[..w] + Nothing(DJW_TOTAL_CODES - w) == cl;
  }

  lemma WrittenIs(cl: seq<nat>)
    requires |cl| == DJW_TOTAL_CODES
    ensures var w := Written(cl, DJW_TOTAL_CODES);
      && DJW_EXTRA_12OFFSET <= w <= DJW_TOTAL_CODES && (forall i | w <= i < |cl| :: cl[i] == 0)
      && Value(ToBits(w - DJW_EXTRA_12OFFSET, DJW_EXTRA_CODE_BITS)) == w - DJW_EXTRA_12OFFSET
      && w - DJW_EXTRA_12OFFSET < Pow2(DJW_EXTRA_CODE_BITS)
  {
    ValueToBits(Written(cl, DJW_TOTAL_CODES) - DJW_EXTRA_12OFFSET, DJW_EXTRA_CODE_BITS);
  }

  /** Decode `k` symbols after those in `acc`. */
  function ReadSymbols(clen: seq<nat>, max: nat, b: seq<bool>, k: nat, acc: seq<nat>): Result
    decreases k
  {
    if k == 0 then Values(acc, b)
    else
      var d := Decode(clen, max, b);
      if d == Invalid then Bad else ReadSymbols(clen, max, d.rest, k - 1, acc + [d.sym])
  }

  lemma {:induction false} SymbolsBack(clen: seq<nat>, max: nat, cs: seq<nat>, rest: seq<bool>, acc: seq<nat>)
    requires Kraft(clen, max) && AllCoded(clen, cs)
    ensures ReadSymbols(clen, max, CodeString(clen, cs) + rest, |cs|, acc) == Values(acc + cs, rest)
  {
    hide Kraft, Decode, CodeBits;
    if cs == [] {
      assert CodeString(clen, cs) + rest == rest && acc + cs == acc;
    } else {
      CodeNext(clen, max, cs, rest);
      SymbolsBack(clen, max, cs[1..], rest, acc + [cs[0]]);
      assert acc + [cs[0]] + cs[1..] == acc + cs;
    }
  }

  /** One group, after the number of groups: the code for code lengths, the code
      lengths, and `n` symbols. */
  ghost function ReadOne(b: seq<bool>, n: nat): Result {
    var cl := ReadClclen(b);
    if cl == Bad || !HasCode(cl.vals) then Bad
    else
      ClenMtfIs();
      var p := Read12(cl.vals, MaxLen(cl.vals), ALPHABET_SIZE, ALPHABET_SIZE, cl.rest, State([], 0, 0, 0, ClenMtf()));
      if p == Bad || !HasCode(p.vals) then Bad
      else ReadSymbols(p.vals, MaxLen(p.vals), p.rest, n, [])
  }

  /** A code for `input`, and a code for its code lengths. */
  ghost predicate Codebook(input: seq<nat>, clen: seq<nat>, cl: seq<nat>) {
    && |clen| == ALPHABET_SIZE && Kraft(clen, DJW_MAX_CODELEN) && AllCoded(clen, input)
    && |cl| == DJW_TOTAL_CODES && Kraft(cl, DJW_MAX_CLCLEN)
    && Within(clen, ClenMtf()) && AllCoded(cl, Codes(clen, ClenMtf(), 0))
  }

  ghost function OneBits(input: seq<nat>, clen: seq<nat>, cl: seq<nat>): seq<bool>
    requires Codebook(input, clen, cl)
  {
    ClclenBits(cl) + (CodeString(cl, Codes(clen, ClenMtf(), 0)) + CodeString(clen, input))
  }

  lemma MaxKraft(clen: seq<nat>, max: nat)
    requires Kraft(clen, max)
    ensures MaxLen(clen) <= max && Kraft(clen, MaxLen(clen))
  {
    ShareFits(clen, MaxLen(clen), max);
  }

  /** Nothing is left out of a single group. */
  lemma {:induction false} KeptAll(clen: seq<nat>, n: nat)
    requires n <= |clen|
    ensures Kept(clen, |clen|, n) == clen[n..] && ZerosAgree(clen, |clen|)
    decreases |clen| - n
  {
    if n < |clen| {
      KeptAll(clen, n + 1);
      assert clen[n..] == [clen[n]] + clen[n + 1..];
    }
  }

  lemma CodedHasCode(clen: seq<nat>, cs: seq<nat>)
    requires AllCoded(clen, cs) && cs != []
    ensures HasCode(clen)
  {
    assert cs[0] < |clen| && clen[cs[0]] > 0;
  }

  lemma CodesSome(syms: seq<nat>, list: seq<nat>)
    requires Within(syms, list) && syms != []
    ensures Codes(syms, list, 0) != []
  {
    CodesCons(syms[0], syms[1..], list, 0);
    assert syms == [syms[0]] + syms[1..];
    if IndexOf(list, syms[0]) == 0 { RunSome(syms[1..], Front(list, 0), 1); }
  }

  lemma {:induction false} RunSome(syms: seq<nat>, list: seq<nat>, run: nat)
    requires Within(syms, list) && run > 0
    ensures Codes(syms, list, run) != []
  {
    if syms != [] && IndexOf(list, syms[0]) == 0 { RunSome(syms[1..], list, run + 1); }
  }

  /** The round trip on bits: what follows is left alone. */
  lemma OneBack(input: seq<nat>, clen: seq<nat>, cl: seq<nat>, rest: seq<bool>)
    requires Codebook(input, clen, cl) && input != []
    ensures ReadOne(OneBits(input, clen, cl) + rest, |input|) == Values(input, rest)
  {
    hide Kraft, CodeString, Codes, ReadClclen, ClclenBits, Read12, ReadSymbols, Kept, ZerosAgree, MaxLen, ClenMtf;
    CodebookIs(input, clen, cl);
    var cs := Codes(clen, ClenMtf(), 0);
    var data := CodeString(clen, input) + rest;
    assert OneBits(input, clen, cl) + rest == ClclenBits(cl) + (CodeString(cl, cs) + data);
    ClclenBack(cl, CodeString(cl, cs) + data);
    RunRoundTrip.RoundTrip(cl, MaxLen(cl), clen, ALPHABET_SIZE, ClenMtf(), data);
    SymbolsBack(clen, MaxLen(clen), input, rest, []);
    assert [] + input == input;
  }

  lemma CodebookIs(input: seq<nat>, clen: seq<nat>, cl: seq<nat>)
    requires Codebook(input, clen, cl) && input != []
    ensures Kraft(cl, MaxLen(cl)) && Kraft(clen, MaxLen(clen)) && HasCode(cl) && HasCode(clen)
    ensures Kept(clen, ALPHABET_SIZE, 0) == clen && ZerosAgree(clen, ALPHABET_SIZE)
    ensures 0 < |ClenMtf()| && |cl| <= |ClenMtf()| + 1
    ensures forall i | 0 <= i < |cl| :: cl[i] <= DJW_MAX_CLCLEN
  {
    ClenMtfIs();
    MaxKraft(cl, DJW_MAX_CLCLEN);
    MaxKraft(clen, DJW_MAX_CODELEN);
    KeptAll(clen, 0);
    CodedHasCode(clen, input);
    CodesSome(clen, ClenMtf());
    CodedHasCode(cl, Codes(clen, ClenMtf(), 0));
  }
}
