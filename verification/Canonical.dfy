/** Canonical prefix codes: codes from code lengths, and decoding tables. */
module Canonical {
  import opened Bytes
  import opened Options
  import opened BitIO

  const DJW_MAX_CODELEN := 20

  /** How many symbols have a code of length `l`. */
  function Count(clen: seq<nat>, l: nat): (n: nat)
    ensures n <= |clen|
  {
    if clen == [] then 0
    else Count(clen[..|clen| - 1], l) + if clen[|clen| - 1] == l then 1 else 0
  }

  /** The first code of length `l`; codes of one length follow each other. */
  function First(clen: seq<nat>, l: nat): nat {
    if l <= 1 then 0 else 2 * (First(clen, l - 1) + Count(clen, l - 1))
  }

  /** One past the last code of length `l`. */
  function Next(clen: seq<nat>, l: nat): nat {
    First(clen, l) + Count(clen, l)
  }

  /** How many symbols have a code shorter than `l`. */
  function Shorter(clen: seq<nat>, l: nat): nat {
    if l <= 1 then 0 else Shorter(clen, l - 1) + Count(clen, l - 1)
  }

  function CodeOf(clen: seq<nat>, i: nat): nat
    requires i < |clen|
  {
    First(clen, clen[i]) + Count(clen[..i], clen[i])
  }

  /** The code of a symbol as it is written. */
  function CodeBits(clen: seq<nat>, i: nat): seq<bool>
    requires i < |clen|
  {
    ToBits(CodeOf(clen, i), clen[i])
  }

  /** The share of all words of `l` bits that codes of up to `l` bits take: the
      sum of `2^(l - clen[i])`. */
  function Share(clen: seq<nat>, l: nat): nat {
    if clen == [] then 0
    else Share(clen[..|clen| - 1], l)
         + var c := clen[|clen| - 1]; if 0 < c <= l then Pow2(l - c) else 0
  }

  /** Code lengths up to `max` for which a prefix code exists (Kraft). */
  ghost predicate Kraft(clen: seq<nat>, max: nat) {
    (forall i | 0 <= i < |clen| :: clen[i] <= max) && Share(clen, max) <= Pow2(max)
  }

  ghost predicate HasCode(clen: seq<nat>) {
    exists i :: 0 <= i < |clen| && clen[i] > 0
  }

  lemma {:induction false} ShareDoubles(clen: seq<nat>, l: nat)
    requires l > 0
    ensures Share(clen, l) == 2 * Share(clen, l - 1) + Count(clen, l)
  {
    if clen != [] {
      ShareDoubles(clen[..|clen| - 1], l);
    }
  }

  lemma {:induction false} ShareZero(clen: seq<nat>)
    ensures Share(clen, 0) == 0
  {
    if clen != [] {
      ShareZero(clen[..|clen| - 1]);
    }
  }

  /** The codes of length `l` and the continuations of shorter ones are all the
      words below `Next`. */
  lemma {:induction false} NextIsShare(clen: seq<nat>, l: nat)
    requires l > 0
    ensures Next(clen, l) == Share(clen, l)
  {
    ShareDoubles(clen, l);
    if l == 1 {
      ShareZero(clen);
    } else {
      NextIsShare(clen, l - 1);
    }
  }

  /** Codes fit into their lengths. */
  lemma {:induction false} ShareFits(clen: seq<nat>, l: nat, max: nat)
    requires l <= max && Share(clen, max) <= Pow2(max)
    ensures Share(clen, l) <= Pow2(l)
  {
    if l < max {
      ShareDoubles(clen, max);
      ShareFits(clen, l, max - 1);
    }
  }

  /** Longer prefixes have more symbols of a length. */
  lemma {:induction false} CountPrefix(clen: seq<nat>, i: nat, l: nat)
    requires i < |clen|
    ensures Count(clen[..i], l) + (if clen[i] == l then 1 else 0) <= Count(clen, l)
  {
    var n := |clen| - 1;
    if i < n {
      CountPrefix(clen[..n], i, l);
      assert clen[..n][..i] == clen[..i];
    }
  }

  lemma CodeFits(clen: seq<nat>, i: nat, max: nat)
    requires Kraft(clen, max) && i < |clen| && clen[i] > 0
    ensures First(clen, clen[i]) <= CodeOf(clen, i) < Next(clen, clen[i]) <= Pow2(clen[i])
  {
    CountPrefix(clen, i, clen[i]);
    NextIsShare(clen, clen[i]);
    ShareFits(clen, clen[i], max);
  }

  /** The table entries do not go below zero. */
  lemma {:induction false} ShorterFirst(clen: seq<nat>, l: nat)
    ensures Shorter(clen, l) <= First(clen, l)
  {
    if l > 1 { ShorterFirst(clen, l - 1); }
  }

  lemma {:induction false} NoneBelow(clen: seq<nat>, l: nat)
    requires forall i | 0 <= i < |clen| :: clen[i] == 0 || clen[i] >= l
    ensures First(clen, l) == 0 && Shorter(clen, l) == 0
  {
    if l > 1 {
      NoneBelow(clen, l - 1);
      CountNone(clen, l - 1);
    }
  }

  lemma {:induction false} CountNone(clen: seq<nat>, l: nat)
    requires forall i | 0 <= i < |clen| :: clen[i] != l
    ensures Count(clen, l) == 0
  {
    if clen != [] { CountNone(clen[..|clen| - 1], l); }
  }

  /** The symbol with the `r`-th code of length `l`. */
  function SymbolAt(clen: seq<nat>, l: nat, r: nat): (i: nat)
    requires r < Count(clen, l)
    ensures i < |clen| && clen[i] == l && Count(clen[..i], l) == r
  {
    var n := |clen| - 1;
    if clen[n] == l && Count(clen[..n], l) == r then n
    else
      var i := SymbolAt(clen[..n], l, r);
      assert clen[..n][..i] == clen[..i];
      i
  }

  lemma CountBefore(clen: seq<nat>, i: nat, j: nat)
    requires i < j <= |clen|
    ensures Count(clen[..i], clen[i]) < Count(clen[..j], clen[i])
  {
    CountPrefix(clen[..j], i, clen[i]);
    assert clen[..j][..i] == clen[..i];
  }

  lemma SymbolAtIs(clen: seq<nat>, i: nat)
    requires i < |clen|
    ensures Count(clen[..i], clen[i]) < Count(clen, clen[i])
    ensures SymbolAt(clen, clen[i], Count(clen[..i], clen[i])) == i
  {
    var l := clen[i];
    CountPrefix(clen, i, l);
    var j := SymbolAt(clen, l, Count(clen[..i], l));
    if i < j { CountBefore(clen, i, j); }
    if j < i { CountBefore(clen, j, i); }
  }

  datatype Symbol = Invalid | Symbol(sym: nat, rest: seq<bool>)

  /** Decoding by first principles: a word of `n` bits below `Next` is a code. */
  function DecodeFrom(clen: seq<nat>, b: seq<bool>, code: nat, n: nat, max: nat): (r: Symbol)
    requires n > 0 ==> Next(clen, n) <= code
    requires n <= max
    ensures r.Symbol? ==> r.sym < |clen|
    decreases |b|
  {
    if n == max || b == [] then Invalid
    else
      var code', n' := 2 * code + BitValue(b[0]), n + 1;
      if code' < Next(clen, n')
      then Symbol(SymbolAt(clen, n', code' - First(clen, n')), b[1..])
      else DecodeFrom(clen, b[1..], code', n', max)
  }

  /** Decode one symbol of a code with lengths up to `max`. */
  function Decode(clen: seq<nat>, max: nat, b: seq<bool>): (r: Symbol)
    ensures r.Symbol? ==> r.sym < |clen|
  {
    DecodeFrom(clen, b, 0, 0, max)
  }

  /** `v` without its last `k` bits. */
  function High(v: nat, k: nat): nat {
    if k == 0 then v else High(v / 2, k - 1)
  }

  lemma {:induction false} HighStep(v: nat, k: nat)
    ensures High(v, k) / 2 == High(v, k + 1)
  {
    if k > 0 { HighStep(v / 2, k - 1); }
  }

  lemma {:induction false} HighBit(v: nat, l: nat, n: nat)
    requires n < l
    ensures ToBits(v, l)[n] == (High(v, l - n - 1) % 2 == 1)
  {
    if n < l - 1 { HighBit(v / 2, l - 1, n); }
  }

  lemma {:induction false} HighNone(v: nat, l: nat)
    requires v < Pow2(l)
    ensures High(v, l) == 0
  {
    if l > 0 { HighNone(v / 2, l - 1); }
  }

  /** The beginning of a code is past all shorter codes. */
  lemma {:induction false} HighAbove(clen: seq<nat>, v: nat, l: nat, n: nat)
    requires 0 < n < l && First(clen, l) <= v
    ensures Next(clen, n) <= High(v, l - n)
  {
    if n < l - 1 {
      HighAbove(clen, v / 2, l - 1, n);
    } else {
      assert High(v, 1) == High(v / 2, 0) == v / 2;
    }
  }

  lemma {:induction false} DecodeCode(clen: seq<nat>, max: nat, i: nat, rest: seq<bool>, n: nat)
    requires Kraft(clen, max) && i < |clen| && n < clen[i]
    requires n > 0 ==> Next(clen, n) <= High(CodeOf(clen, i), clen[i] - n)
    ensures DecodeFrom(clen, CodeBits(clen, i)[n..] + rest, High(CodeOf(clen, i), clen[i] - n), n, max)
         == Symbol(i, rest)
    decreases clen[i] - n
  {
    hide Kraft, First, Next, Count, High, ToBits, SymbolAt, CodeOf;
    DecodeCodeStep(clen, max, i, rest, n);
    if n + 1 < clen[i] {
      DecodeCode(clen, max, i, rest, n + 1);
    }
  }

  lemma DecodeCodeStep(clen: seq<nat>, max: nat, i: nat, rest: seq<bool>, n: nat)
    requires Kraft(clen, max) && i < |clen| && n < clen[i]
    ensures n < max
    ensures var v, l := CodeOf(clen, i), clen[i]; var b := CodeBits(clen, i)[n..] + rest;
      && b != [] && b[1..] == CodeBits(clen, i)[n + 1..] + rest
      && High(v, l - n - 1) == 2 * High(v, l - n) + BitValue(b[0])
      && if n + 1 < l then Next(clen, n + 1) <= High(v, l - n - 1)
         else High(v, l - n - 1) == v < Next(clen, l) && b[1..] == rest && First(clen, l) <= v
              && v - First(clen, l) < Count(clen, l) && SymbolAt(clen, l, v - First(clen, l)) == i
  {
    var v, l := CodeOf(clen, i), clen[i];
    CodeFits(clen, i, max);
    HighBit(v, l, n);
    HighStep(v, l - n - 1);
    if n + 1 < l {
      HighAbove(clen, v, l, n + 1);
    } else {
      SymbolAtIs(clen, i);
    }
  }

  /** Whatever follows the code of a symbol, decoding gives the symbol and stops
      right behind it. */
  lemma Inversion(clen: seq<nat>, max: nat, i: nat, rest: seq<bool>)
    requires Kraft(clen, max) && i < |clen| && clen[i] > 0
    ensures Decode(clen, max, CodeBits(clen, i) + rest) == Symbol(i, rest)
  {
    CodeFits(clen, i, max);
    HighNone(CodeOf(clen, i), clen[i]);
    assert CodeBits(clen, i)[0..] == CodeBits(clen, i);
    DecodeCode(clen, max, i, rest, 0);
  }

  lemma {:induction false} BitsOfValue(b: seq<bool>)
    ensures ToBits(Value(b), |b|) == b
  {
    if b != [] {
      var n := |b| - 1;
      BitsOfValue(b[..n]);
      assert b == b[..n] + [b[n]];
    }
  }

  lemma {:induction false} DecodeSound(clen: seq<nat>, max: nat, p: seq<bool>, b: seq<bool>)
    requires |p| > 0 ==> Next(clen, |p|) <= Value(p)
    requires |p| <= max
    ensures var r := DecodeFrom(clen, b, Value(p), |p|, max);
      r.Symbol? ==> r.sym < |clen| && 0 < clen[r.sym] <= max && p + b == CodeBits(clen, r.sym) + r.rest
    decreases |b|
  {
    hide First, Count, Value;
    if |p| < max && b != [] {
      var q := p + [b[0]];
      ValueSnoc(p, b[0]);
      assert q + b[1..] == p + b;
      if Value(q) < Next(clen, |q|) {
        NotBelow(clen, p, b[0]);
        BitsOfValue(q);
      } else {
        DecodeSound(clen, max, q, b[1..]);
      }
    }
  }

  lemma NotBelow(clen: seq<nat>, p: seq<bool>, x: bool)
    requires |p| > 0 ==> Next(clen, |p|) <= Value(p)
    ensures First(clen, |p| + 1) <= 2 * Value(p) + BitValue(x)
  {
  }

  /** Nothing else is decoded: a symbol comes with exactly its code, for any
      lengths. */
  lemma DecodeIffCode(clen: seq<nat>, max: nat, b: seq<bool>, i: nat, rest: seq<bool>)
    requires Kraft(clen, max)
    ensures Decode(clen, max, b) == Symbol(i, rest) <==>
      i < |clen| && clen[i] > 0 && b == CodeBits(clen, i) + rest
  {
    DecodeSound(clen, max, [], b);
    assert [] + b == b;
    if i < |clen| && clen[i] > 0 && b == CodeBits(clen, i) + rest {
      Inversion(clen, max, i, rest);
    }
  }

  function MaxLen(clen: seq<nat>): (m: nat)
    ensures forall i | 0 <= i < |clen| :: clen[i] <= m
    ensures m > 0 ==> m in clen
  {
    if clen == [] then 0 else Max(MaxLen(clen[..|clen| - 1]), clen[|clen| - 1])
  }

  /** `djw_build_codes`. */
  method BuildCodes(clen: seq<nat>, absMax: nat) returns (codes: array<nat>)
    requires absMax <= DJW_MAX_CODELEN && forall i | 0 <= i < |clen| :: clen[i] <= absMax
    ensures fresh(codes) && codes.Length == |clen|
    ensures forall i | 0 <= i < |clen| && clen[i] > 0 :: codes[i] == CodeOf(clen, i)
  {
    hide First, Count;
    codes := new nat[|clen|];
    var minLen, maxLen, i := DJW_MAX_CODELEN, 0, 0;
    while i < |clen|
      invariant 0 <= i <= |clen| && minLen <= DJW_MAX_CODELEN && maxLen <= absMax
      invariant forall j | 0 <= j < i && clen[j] > 0 :: minLen <= clen[j] <= maxLen
      invariant minLen > 0
    {
      if clen[i] > 0 && clen[i] < minLen { minLen := clen[i]; }
      maxLen := Max(maxLen, clen[i]);
      i := i + 1;
    }
    var code, l := 0, minLen;
    NoneBelow(clen, minLen);
    while l <= maxLen
      invariant minLen <= l && code == First(clen, l)
      invariant forall j | 0 <= j < |clen| && 0 < clen[j] < l :: codes[j] == CodeOf(clen, j)
    {
      code := CodesOfLength(clen, l, code, codes);
      NextFirst(clen, l);
      code, l := code * 2, l + 1;
    }
  }

  lemma NextFirst(clen: seq<nat>, l: nat)
    requires l > 0
    ensures First(clen, l + 1) == 2 * Next(clen, l)
  {
  }

  /** The inner loop of `djw_build_codes`. */
  method CodesOfLength(clen: seq<nat>, l: nat, code0: nat, codes: array<nat>) returns (code: nat)
    requires codes.Length == |clen| && code0 == First(clen, l)
    modifies codes
    ensures code == Next(clen, l)
    ensures forall j | 0 <= j < |clen| :: codes[j] == if clen[j] == l then CodeOf(clen, j) else old(codes[j])
  {
    hide First;
    code := code0;
    for i := 0 to |clen|
      invariant code == First(clen, l) + Count(clen[..i], l)
      invariant forall j | 0 <= j < |clen| ::
        codes[j] == if j < i && clen[j] == l then CodeOf(clen, j) else old(codes[j])
    {
      assert clen[..i + 1][..i] == clen[..i];
      if clen[i] == l {
        codes[i] := code;
        code := code + 1;
      }
    }
    assert clen[..|clen|] == clen;
  }

  /** The arguments of `djw_decode_symbol`. */
  datatype Tables = Tables(inorder: seq<nat>, base: seq<nat>, limit: seq<nat>, minLen: nat, maxLen: nat)

  /** What the tables of a code hold. */
  ghost predicate TablesOk(clen: seq<nat>, t: Tables) {
    && 0 < t.minLen <= t.maxLen == MaxLen(clen) && t.maxLen < |t.base| && t.maxLen < |t.limit|
    && (forall i | 0 <= i < |clen| :: clen[i] == 0 || t.minLen <= clen[i])
    && (forall l | t.minLen <= l <= t.maxLen :: LevelOk(clen, t.base, t.limit, l))
    && (forall i | 0 <= i < |clen| && clen[i] > 0 :: InOrder(clen, t.inorder, i))
  }

  ghost predicate LevelOk(clen: seq<nat>, base: seq<nat>, limit: seq<nat>, l: nat) {
    && l < |base| && l < |limit|
    && limit[l] + 1 == Next(clen, l) && base[l] + Shorter(clen, l) == First(clen, l)
  }

  /** The place of a symbol when they are sorted by code. */
  function Place(clen: seq<nat>, i: nat): nat
    requires i < |clen|
  {
    Shorter(clen, clen[i]) + Count(clen[..i], clen[i])
  }

  ghost predicate InOrder(clen: seq<nat>, inorder: seq<nat>, i: nat) {
    i < |clen| && Place(clen, i) < |inorder| && inorder[Place(clen, i)] == i
  }

  /** The length of the code read so far is past all codes of length `l`, or
      below the limit. */
  lemma LevelDecides(clen: seq<nat>, t: Tables, code: nat, l: nat)
    requires TablesOk(clen, t) && 0 < l <= t.maxLen && First(clen, l) <= code
    ensures l < |t.base| && l < |t.limit| && (l < t.minLen ==> Next(clen, l) == 0)
    ensures t.minLen <= l ==> (code <= t.limit[l] <==> code < Next(clen, l))
    ensures code < Next(clen, l) ==>
      && t.base[l] <= code && code - t.base[l] < |t.inorder|
      && t.inorder[code - t.base[l]] == SymbolAt(clen, l, code - First(clen, l))
  {
    hide First, Count, Shorter;
    if l < t.minLen {
      NoneBelow(clen, l);
      CountNone(clen, l);
    } else {
      assert LevelOk(clen, t.base, t.limit, l);
    }
    if code < Next(clen, l) {
      var i := SymbolAt(clen, l, code - First(clen, l));
      assert InOrder(clen, t.inorder, i);
    }
  }

  lemma DecodeEnds(clen: seq<nat>, b: seq<bool>, code: nat, n: nat, max: nat)
    requires (b == [] || n == max) && n <= max && (n > 0 ==> Next(clen, n) <= code)
    ensures DecodeFrom(clen, b, code, n, max) == Invalid
  {
  }

  lemma DecodeStep(clen: seq<nat>, b: seq<bool>, rest: seq<bool>, bit: bool, code: nat, n: nat, max: nat)
    requires b == [bit] + rest && n < max && (n > 0 ==> Next(clen, n) <= code)
    ensures First(clen, n + 1) <= 2 * code + BitValue(bit)
    ensures var c := 2 * code + BitValue(bit);
      DecodeFrom(clen, b, code, n, max)
      == if c < Next(clen, n + 1) then Symbol(SymbolAt(clen, n + 1, c - First(clen, n + 1)), rest)
         else DecodeFrom(clen, rest, c, n + 1, max)
  {
    hide Count, SymbolAt;
  }

  /** `djw_decode_symbol`. Every offset it computes is the place of a symbol. */
  method DecodeSymbol(r: BitReader, t: Tables, ghost clen: seq<nat>, maxSym: nat) returns (sym: Option<nat>)
    requires r.Valid() && TablesOk(clen, t) && |t.inorder| <= maxSym && t.maxLen == MaxLen(clen)
    modifies r
    ensures r.Valid()
    ensures var d := Decode(clen, MaxLen(clen), old(r.Rest()));
      if d.Symbol? then sym == Some(d.sym) && r.Rest() == d.rest && r.used > 0 else sym == None
  {
    hide TablesOk, First, Count, Next, LevelOk, InOrder, SymbolAt, DecodeFrom;
    ghost var d := Decode(clen, MaxLen(clen), r.Rest());
    var code, bits := 0, 0;
    while true
      invariant r.Valid() && (bits > 0 ==> Next(clen, bits) <= code) && bits <= t.maxLen
      invariant d == DecodeFrom(clen, r.Rest(), code, bits, t.maxLen)
      decreases t.maxLen - bits
    {
      var ok := r.NextByte();
      if !ok || bits == t.maxLen {
        DecodeEnds(clen, r.Rest(), code, bits, t.maxLen);
        return None;
      }
      ghost var b := r.Rest();
      var bit := r.TakeBit();
      DecodeStep(clen, b, r.Rest(), bit, code, bits, t.maxLen);
      bits, code := bits + 1, 2 * code;
      if bit { code := code + 1; }
      LevelDecides(clen, t, code, bits);
      if bits >= t.minLen && code <= t.limit[bits] {
        break;
      }
    }
    if t.base[bits] <= code {
      var offset := code - t.base[bits];
      if offset <= maxSym {
        return Some(t.inorder[offset]);
      }
    }
    return None;
  }

  lemma {:induction false} ShorterSnoc(clen: seq<nat>, l: nat)
    requires clen != []
    ensures var n := |clen| - 1;
      Shorter(clen, l) == Shorter(clen[..n], l) + if 0 < clen[n] < l then 1 else 0
  {
    if l > 1 { ShorterSnoc(clen, l - 1); }
  }

  lemma {:induction false} ShorterNone(l: nat)
    ensures Shorter([], l) == 0
  {
    if l > 1 { ShorterNone(l - 1); }
  }

  lemma {:induction false} ShorterTotal(clen: seq<nat>, l: nat)
    ensures Shorter(clen, l) <= |clen|
  {
    if clen == [] { ShorterNone(l); } else {
      ShorterTotal(clen[..|clen| - 1], l);
      ShorterSnoc(clen, l);
    }
  }

  lemma {:induction false} ShorterGrows(clen: seq<nat>, l: nat, m: nat)
    requires l <= m
    ensures Shorter(clen, l) <= Shorter(clen, m)
  {
    if l < m { ShorterGrows(clen, l, m - 1); }
  }

  lemma PlaceFits(clen: seq<nat>, i: nat)
    requires i < |clen| && clen[i] > 0
    ensures Shorter(clen, clen[i]) <= Place(clen, i) < Shorter(clen, clen[i] + 1) <= |clen|
  {
    CountPrefix(clen, i, clen[i]);
    ShorterTotal(clen, clen[i] + 1);
  }

  lemma CountNothing()
    ensures forall l :: Count([], l) == 0
  {
  }

  lemma CountSnoc(clen: seq<nat>, i: nat)
    requires i < |clen|
    ensures forall l :: Count(clen[..i + 1], l) == Count(clen[..i], l) + if clen[i] == l then 1 else 0
  {
    assert clen[..i + 1][..i] == clen[..i];
  }

  lemma PlaceIs(clen: seq<nat>, i: nat)
    requires i < |clen| && clen[i] > 0
    ensures Place(clen, i) == Shorter(clen, clen[i]) + Count(clen[..i], clen[i]) < |clen|
  {
    PlaceFits(clen, i);
  }

  lemma PlacesDiffer(clen: seq<nat>, i: nat, j: nat)
    requires j < i < |clen| && clen[i] > 0 && clen[j] > 0
    ensures Place(clen, i) != Place(clen, j)
  {
    hide Count, Shorter;
    PlaceFits(clen, i);
    PlaceFits(clen, j);
    if clen[i] == clen[j] {
      CountBefore(clen, j, i);
    } else if clen[i] < clen[j] {
      ShorterGrows(clen, clen[i] + 1, clen[j]);
    } else {
      ShorterGrows(clen, clen[j] + 1, clen[i]);
    }
  }

  /** `djw_build_decoder`, for a code with at least one symbol. */
  method BuildDecoder(clen: seq<nat>, absMax: nat) returns (t: Tables)
    requires HasCode(clen) && absMax <= DJW_MAX_CODELEN && forall i | 0 <= i < |clen| :: clen[i] <= absMax
    ensures TablesOk(clen, t) && |t.inorder| == |clen| && t.maxLen <= absMax
  {
    hide First, Count, Next, Shorter, Place;
    var nr := CountLengths(clen, absMax);
    var minLen := 1;
    while minLen <= absMax && nr[minLen] == 0
      modifies {}
      invariant 1 <= minLen <= absMax + 1
      invariant forall i | 0 <= i < |clen| :: clen[i] == 0 || minLen <= clen[i]
    {
      NoneOfLength(clen, minLen);
      minLen := minLen + 1;
    }
    var maxLen := absMax;
    while maxLen != 0 && nr[maxLen] == 0
      modifies {}
      invariant 0 <= maxLen <= absMax
      invariant forall i | 0 <= i < |clen| :: clen[i] <= maxLen
    {
      NoneOfLength(clen, maxLen);
      maxLen := maxLen - 1;
    }
    SomeOfLength(clen, maxLen);
    var tmpBase, base, limit := FillLimits(clen, nr, minLen, maxLen);
    var inorder := FillInOrder(clen, tmpBase, minLen, maxLen);
    t := Tables(inorder[..], base[..], limit[..], minLen, maxLen);
  }

  lemma NoneOfLength(clen: seq<nat>, l: nat)
    ensures Count(clen, l) == 0 ==> forall i | 0 <= i < |clen| :: clen[i] != l
  {
    if Count(clen, l) == 0 {
      forall i | 0 <= i < |clen| ensures clen[i] != l { CountPrefix(clen, i, l); }
    }
  }

  lemma SomeOfLength(clen: seq<nat>, l: nat)
    requires HasCode(clen) && (forall i | 0 <= i < |clen| :: clen[i] <= l) && (l > 0 ==> Count(clen, l) > 0)
    ensures l > 0 && MaxLen(clen) == l && l in clen
  {
    if forall i | 0 <= i < |clen| :: clen[i] != l { CountNone(clen, l); }
  }

  /** Count number of each code length. */
  method CountLengths(clen: seq<nat>, absMax: nat) returns (nr: array<nat>)
    requires forall i | 0 <= i < |clen| :: clen[i] <= absMax
    ensures fresh(nr) && nr.Length == absMax + 1 && forall l | 0 <= l <= absMax :: nr[l] == Count(clen, l)
  {
    nr := new nat[absMax + 1](_ => 0);
    for i := 0 to |clen|
      invariant forall l | 0 <= l <= absMax :: nr[l] == Count(clen[..i], l)
    {
      assert clen[..i + 1][..i] == clen[..i];
      nr[clen[i]] := nr[clen[i]] + 1;
    }
    assert clen[..|clen|] == clen;
  }

  /** Fill the BASE, LIMIT table. */
  method FillLimits(clen: seq<nat>, nr: array<nat>, minLen: nat, maxLen: nat)
      returns (tmpBase: array<nat>, base: array<nat>, limit: array<nat>)
    requires 0 < minLen <= maxLen < nr.Length && forall l | 0 <= l <= maxLen :: nr[l] == Count(clen, l)
    requires nr[minLen] > 0 && forall i | 0 <= i < |clen| :: clen[i] == 0 || minLen <= clen[i]
    ensures fresh(tmpBase) && tmpBase != base && tmpBase != limit && tmpBase.Length == base.Length == limit.Length == maxLen + 1
    ensures forall l | minLen <= l <= maxLen :: LevelOk(clen, base[..], limit[..], l)
    ensures forall l | minLen <= l <= maxLen :: tmpBase[l] == Shorter(clen, l)
  {
    hide First, Count, Shorter;
    tmpBase, base, limit := new nat[maxLen + 1], new nat[maxLen + 1], new nat[maxLen + 1];
    NoneBelow(clen, minLen);
    tmpBase[minLen], base[minLen], limit[minLen] := 0, 0, nr[minLen] - 1;
    for i := minLen + 1 to maxLen + 1
      invariant forall l | 0 <= l <= maxLen :: nr[l] == Count(clen, l)
      invariant forall l | minLen <= l < i :: limit[l] + 1 == Next(clen, l)
      invariant forall l | minLen <= l < i :: base[l] + Shorter(clen, l) == First(clen, l)
      invariant forall l | minLen <= l < i :: tmpBase[l] == Shorter(clen, l)
    {
      NextLevel(clen, i);
      var lastLimit := (limit[i - 1] + 1) * 2;
      tmpBase[i] := tmpBase[i - 1] + nr[i - 1];
      limit[i] := lastLimit + nr[i] - 1;
      base[i] := lastLimit - tmpBase[i];
    }
  }

  lemma NextLevel(clen: seq<nat>, l: nat)
    requires l > 1
    ensures First(clen, l) == 2 * Next(clen, l - 1) && Shorter(clen, l) == Shorter(clen, l - 1) + Count(clen, l - 1)
    ensures Shorter(clen, l) <= First(clen, l)
  {
    ShorterFirst(clen, l);
  }

  /** Fill the inorder array, canonically ordered codes. */
  method FillInOrder(clen: seq<nat>, tmpBase: array<nat>, minLen: nat, maxLen: nat) returns (inorder: array<nat>)
    requires tmpBase.Length == maxLen + 1 && minLen > 0 && forall i | 0 <= i < |clen| && clen[i] > 0 :: minLen <= clen[i] <= maxLen
    requires forall l | minLen <= l <= maxLen :: tmpBase[l] == Shorter(clen, l)
    modifies tmpBase
    ensures fresh(inorder) && inorder.Length == |clen|
    ensures forall i | 0 <= i < |clen| && clen[i] > 0 :: InOrder(clen, inorder[..], i)
  {
    hide Shorter, Place, Count;
    CountNothing();
    inorder := new nat[|clen|];
    for i := 0 to |clen|
      invariant forall l | minLen <= l <= maxLen :: tmpBase[l] == Shorter(clen, l) + Count(clen[..i], l)
      invariant forall j | 0 <= j < i && clen[j] > 0 :: Place(clen, j) < |clen| && inorder[Place(clen, j)] == j
    {
      CountSnoc(clen, i);
      var l := clen[i];
      if l != 0 {
        PlaceIs(clen, i);
        forall j | 0 <= j < i && clen[j] > 0 ensures Place(clen, i) != Place(clen, j) {
          PlacesDiffer(clen, i, j);
        }
        assert tmpBase[l] == Place(clen, i);
        inorder[tmpBase[l]] := i;
        tmpBase[l] := tmpBase[l] + 1;
      }
    }
  }
}
