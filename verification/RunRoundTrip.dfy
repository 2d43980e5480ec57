/** Decoding gives back what move-to-front coding with runs was given, also when
    later groups leave out the zeros they share with the first. */
module RunRoundTrip {
  import opened BitIO
  import opened Canonical
  import opened MoveToFront
  import opened RunDecoder

  ghost predicate AllCoded(clen: seq<nat>, cs: seq<nat>) {
    forall k | 0 <= k < |cs| :: cs[k] < |clen| && clen[cs[k]] > 0
  }

  /** Symbols one after the other in a prefix code. */
  function CodeString(clen: seq<nat>, cs: seq<nat>): seq<bool>
    requires forall k | 0 <= k < |cs| :: cs[k] < |clen|
  {
    if cs == [] then [] else CodeBits(clen, cs[0]) + CodeString(clen, cs[1..])
  }

  /** The values from `n` on that the encoder writes. */
  function Kept(full: seq<nat>, skip: nat, n: nat): seq<nat>
    requires n <= |full|
    decreases |full| - n
  {
    if n == |full| then []
    else if Skipped(full, n, skip) then Kept(full, skip, n + 1)
    else [full[n]] + Kept(full, skip, n + 1)
  }

  /** What is left out is zero. */
  ghost predicate ZerosAgree(full: seq<nat>, skip: nat) {
    forall n | 0 <= n < |full| && Skipped(full, n, skip) :: full[n] == 0
  }

  ghost predicate Within(syms: seq<nat>, list: seq<nat>) {
    forall x | x in syms :: x in list
  }

  function LeadRun(k: seq<nat>, x: nat): (r: nat)
    ensures r <= |k| && (forall i | 0 <= i < r :: k[i] == x) && (r < |k| ==> k[r] != x)
  {
    if k == [] || k[0] != x then 0 else 1 + LeadRun(k[1..], x)
  }

  lemma WithinRest(syms: seq<nat>, list: seq<nat>, r: nat)
    requires Within(syms, list) && r <= |syms|
    ensures Within(syms[r..], list)
  {
  }

  /** A run is coded by its digits, before anything else. */
  lemma {:induction false} RunSplit(syms: seq<nat>, list: seq<nat>, run: nat)
    requires Within(syms, list) && 0 < |list|
    ensures var r := LeadRun(syms, list[0]);
      Within(syms[r..], list) && Codes(syms, list, run) == Digits(run + r) + Codes(syms[r..], list, 0)
  {
    hide Codes, Front, IndexOf, Digits;
    EmptyCodes(list, run);
    EmptyCodes(list, 0);
    if syms != [] {
      if syms[0] == list[0] {
        var t, r := syms[1..], LeadRun(syms[1..], list[0]);
        FrontCode(syms, list, run);
        RunSplit(t, list, run + 1);
        assert syms[1 + r..] == t[r..];
      } else {
        OtherCode(syms, list, run);
        assert syms[0..] == syms;
      }
    }
  }

  lemma FrontCode(syms: seq<nat>, list: seq<nat>, run: nat)
    requires Within(syms, list) && syms != [] && 0 < |list| && syms[0] == list[0]
    ensures Within(syms[1..], list) && Codes(syms, list, run) == Codes(syms[1..], list, run + 1)
  {
    assert Front(list, 0) == list;
  }

  lemma NotFront(list: seq<nat>, x: nat)
    requires x in list && list[0] != x
    ensures IndexOf(list, x) != 0
  {
  }

  lemma OtherCode(syms: seq<nat>, list: seq<nat>, run: nat)
    requires Within(syms, list) && syms != [] && 0 < |list| && syms[0] != list[0]
    ensures Codes(syms, list, run) == Digits(run) + Codes(syms, list, 0)
  {
    hide Front, Codes, IndexOf, Digits;
    EmptyCodes(list, 0);
    WithinRest(syms, list, 1);
    var t := syms[1..];
    assert syms == [syms[0]] + t;
    NotFront(list, syms[0]);
    CodesCons(syms[0], t, list, run);
    CodesCons(syms[0], t, list, 0);
    var j := IndexOf(list, syms[0]);
    var tail := [j + RUN_1] + Codes(t, Front(list, j), 0);
    assert Digits(0) + tail == tail;
  }

  lemma EmptyCodes(list: seq<nat>, run: nat)
    ensures Codes([], list, run) == Digits(run) && Digits(0) == []
  {
  }

  /** The codes that the decoder has yet to read; `q` counts the repetitions in
      the digits still to come, in units of the next digit. */
  ghost predicate Ahead(full: seq<nat>, skip: nat, d: State, q: nat, cs: seq<nat>) {
    && |d.vals| <= |full| && d.vals == full[..|d.vals|] && 0 < |d.list|
    && var k := Kept(full, skip, |d.vals|);
    && Within(k, d.list)
    && if d.mtf > 0
       then d.rep == 0 && d.s == 0 && d.mtf < |d.list| && k != [] && k[0] == d.list[d.mtf]
            && Within(k[1..], Front(d.list, d.mtf)) && cs == Codes(k[1..], Front(d.list, d.mtf), 0)
       else var m := d.rep + Pow2(d.s) * q;
            && m <= |k| && (forall i | 0 <= i < m :: k[i] == d.list[0])
            && (m < |k| ==> k[m] != d.list[0])
            && Within(k[m..], d.list) && cs == Digits(q) + Codes(k[m..], d.list, 0)
  }

  lemma KeptStep(full: seq<nat>, skip: nat, vals: seq<nat>)
    requires |vals| < |full| && vals == full[..|vals|]
    ensures vals + [full[|vals|]] == full[..|vals| + 1]
    ensures Skipped(vals, |vals|, skip) <==> Skipped(full, |vals|, skip)
  {
    var n := |vals|;
    if skip != 0 && n >= skip { assert vals[n - skip] == full[n - skip]; }
  }

  lemma KeptNext(full: seq<nat>, skip: nat, n: nat)
    requires n < |full| && !Skipped(full, n, skip)
    ensures var k := Kept(full, skip, n); k != [] && k[0] == full[n] && k[1..] == Kept(full, skip, n + 1)
  {
  }

  /** A skipped zero. */
  lemma AheadSkip(full: seq<nat>, skip: nat, d: State, q: nat, cs: seq<nat>)
    requires Ahead(full, skip, d, q, cs) && ZerosAgree(full, skip) && |d.vals| < |full|
    requires Skipped(d.vals, |d.vals|, skip)
    ensures Ahead(full, skip, d.(vals := d.vals + [0]), q, cs)
  {
    KeptStep(full, skip, d.vals);
    hide Codes, Front, Pow2, Digits;
  }

  /** A repetition. */
  lemma AheadRep(full: seq<nat>, skip: nat, d: State, q: nat, cs: seq<nat>)
    requires Ahead(full, skip, d, q, cs) && |d.vals| < |full|
    requires !Skipped(d.vals, |d.vals|, skip) && d.rep != 0
    ensures Ahead(full, skip, d.(vals := d.vals + [d.list[0]], rep := d.rep - 1), q, cs)
  {
    hide Codes, Front, Digits, Kept, Skipped;
    KeptStep(full, skip, d.vals);
    KeptNext(full, skip, |d.vals|);
    var k := Kept(full, skip, |d.vals|);
    var k' := Kept(full, skip, |d.vals| + 1);
    var m := d.rep + Pow2(d.s) * q;
    assert k'[m - 1..] == k[m..];
    assert forall i | 0 <= i < m - 1 :: k'[i] == k[i + 1];
    WithinRest(k, d.list, 1);
    assert k[1..] == k';
  }

  /** The symbol after a run. */
  lemma AheadSymbol(full: seq<nat>, skip: nat, d: State, q: nat, cs: seq<nat>) returns (q': nat)
    requires Ahead(full, skip, d, q, cs) && |d.vals| < |full|
    requires !Skipped(d.vals, |d.vals|, skip) && d.rep == 0 && d.mtf != 0
    ensures Ahead(full, skip, d.(vals := d.vals + [d.list[d.mtf]], mtf := 0, list := Front(d.list, d.mtf)), q', cs)
  {
    hide Codes, Digits, Kept, LeadRun, Skipped, Front;
    KeptStep(full, skip, d.vals);
    KeptNext(full, skip, |d.vals|);
    var k' := Kept(full, skip, |d.vals| + 1);
    var list := Front(d.list, d.mtf);
    RunSplit(k', list, 0);
    q' := LeadRun(k', list[0]);
    assert 0 + Pow2(0) * q' == 0 + q';
  }

  lemma DigitUnits(q: nat, s: nat)
    requires q > 0
    ensures Digits(q) == [(q - 1) % 2] + Digits((q - 1) / 2) && (q - 1) % 2 <= RUN_1
    ensures Pow2(s) * q == ((q - 1) % 2 + 1) * Pow2(s) + Pow2(s + 1) * ((q - 1) / 2)
  {
    var d, h, p := (q - 1) % 2, (q - 1) / 2, Pow2(s);
    assert q == (d + 1) + 2 * h;
    assert p * q == (d + 1) * p + (2 * p) * h;
  }

  /** A digit of a run is next. */
  lemma AheadDigit(full: seq<nat>, skip: nat, d: State, q: nat, cs: seq<nat>)
    requires Ahead(full, skip, d, q, cs) && d.rep == 0 && d.mtf == 0 && 0 < q
    ensures cs != [] && Ahead(full, skip, AfterCode(d, cs[0]), (q - 1) / 2, cs[1..])
  {
    hide Codes, Front, Digits, Pow2, Kept;
    DigitUnits(q, d.s);
    var k := Kept(full, skip, |d.vals|);
    var tail := Codes(k[Pow2(d.s) * q..], d.list, 0);
    assert cs == [(q - 1) % 2] + (Digits((q - 1) / 2) + tail);
  }

  lemma PlaceFirst(k: seq<nat>, list: seq<nat>)
    requires Within(k, list) && k != [] && 0 < |list| && k[0] != list[0]
    ensures var cs := Codes(k, list, 0);
      && cs != [] && cs[0] > RUN_1 && cs[0] - RUN_1 < |list| && list[cs[0] - RUN_1] == k[0]
      && Within(k[1..], Front(list, cs[0] - RUN_1)) && cs[1..] == Codes(k[1..], Front(list, cs[0] - RUN_1), 0)
  {
    hide Front;
    assert k == [k[0]] + k[1..];
    CodesCons(k[0], k[1..], list, 0);
    var j := IndexOf(list, k[0]);
    assert Codes(k, list, 0) == [j + RUN_1] + Codes(k[1..], Front(list, j), 0);
  }

  /** The place of a symbol is next. */
  lemma AheadPlace(full: seq<nat>, skip: nat, d: State, q: nat, cs: seq<nat>)
    requires Ahead(full, skip, d, q, cs) && d.rep == 0 && d.mtf == 0 && q == 0 && |d.vals| < |full|
    requires !Skipped(d.vals, |d.vals|, skip)
    ensures cs != [] && Ahead(full, skip, AfterCode(d, cs[0]), 0, cs[1..])
  {
    hide Codes, Pow2, Front, Kept, Skipped, Digits;
    KeptStep(full, skip, d.vals);
    KeptNext(full, skip, |d.vals|);
    EmptyCodes(d.list, 0);
    var k := Kept(full, skip, |d.vals|);
    assert Pow2(d.s) * 0 == 0;
    PlaceFirst(k, d.list);
    assert k[0..] == k && Digits(0) + Codes(k, d.list, 0) == Codes(k, d.list, 0);
  }

  lemma CodeNext(clen: seq<nat>, max: nat, cs: seq<nat>, rest: seq<bool>)
    requires Kraft(clen, max) && AllCoded(clen, cs) && cs != []
    ensures AllCoded(clen, cs[1..])
    ensures Decode(clen, max, CodeString(clen, cs) + rest) == Symbol(cs[0], CodeString(clen, cs[1..]) + rest)
  {
    hide Decode, CodeBits, Kraft;
    Inversion(clen, max, cs[0], CodeString(clen, cs[1..]) + rest);
    assert CodeString(clen, cs) + rest == CodeBits(clen, cs[0]) + (CodeString(clen, cs[1..]) + rest);
  }

  lemma AheadEnds(full: seq<nat>, skip: nat, d: State, q: nat, cs: seq<nat>)
    requires Ahead(full, skip, d, q, cs) && |d.vals| == |full|
    ensures d.vals == full && d.rep == 0 && d.mtf == 0 && cs == []
  {
    var p := Pow2(d.s);
    assert q > 0 ==> p * q > 0;
  }

  lemma {:induction false} ReadAhead(clen: seq<nat>, max: nat, full: seq<nat>, skip: nat, rest: seq<bool>,
                                     d: State, q: nat, cs: seq<nat>)
    requires Kraft(clen, max) && AllCoded(clen, cs) && ZerosAgree(full, skip)
    requires Usable(clen, |full|, d) && Ahead(full, skip, d, q, cs)
    ensures Read12(clen, max, |full|, skip, CodeString(clen, cs) + rest, d) == Values(full, rest)
    decreases |full| - |d.vals|, if d.rep == 0 && d.mtf == 0 then 1 else 0
  {
    hide Ahead, Kraft, Decode, Front, ZerosAgree, Read12;
    var b := CodeString(clen, cs) + rest;
    Read12Step(clen, max, |full|, skip, b, d);
    if |d.vals| == |full| {
      AheadEnds(full, skip, d, q, cs);
    } else if Skipped(d.vals, |d.vals|, skip) {
      AheadSkip(full, skip, d, q, cs);
      ReadAhead(clen, max, full, skip, rest, d.(vals := d.vals + [0]), q, cs);
    } else if d.rep != 0 {
      AheadRep(full, skip, d, q, cs);
      ReadAhead(clen, max, full, skip, rest, d.(vals := d.vals + [d.list[0]], rep := d.rep - 1), q, cs);
    } else if d.mtf != 0 {
      var q' := AheadSymbol(full, skip, d, q, cs);
      ReadAhead(clen, max, full, skip, rest,
                d.(vals := d.vals + [d.list[d.mtf]], mtf := 0, list := Front(d.list, d.mtf)), q', cs);
    } else {
      if q > 0 { AheadDigit(full, skip, d, q, cs); } else { AheadPlace(full, skip, d, q, cs); }
      CodeNext(clen, max, cs, rest);
      AfterUsable(clen, max, |full|, d, b);
      ReadAhead(clen, max, full, skip, rest, AfterCode(d, cs[0]), if q > 0 then (q - 1) / 2 else 0, cs[1..]);
    }
  }

  lemma AfterUsable(clen: seq<nat>, max: nat, elts: nat, d: State, b: seq<bool>)
    requires Usable(clen, elts, d) && d.mtf == 0
    ensures var c := Decode(clen, max, b);
      c.Symbol? ==>
        Usable(clen, elts, AfterCode(d, c.sym)) && (AfterCode(d, c.sym).rep != 0 || AfterCode(d, c.sym).mtf != 0)
  {
    hide Decode;
  }

  lemma AheadStart(full: seq<nat>, skip: nat, list: seq<nat>) returns (q: nat)
    requires 0 < |list| && Within(Kept(full, skip, 0), list)
    ensures Ahead(full, skip, State([], 0, 0, 0, list), q, Codes(Kept(full, skip, 0), list, 0))
  {
    hide Codes, Kept, Digits;
    var k := Kept(full, skip, 0);
    RunSplit(k, list, 0);
    q := LeadRun(k, list[0]);
    assert 0 + Pow2(0) * q == q;
  }

  /** The round trip. `full` are all values; where a later group shares a zero
      with the group before it, neither side spends a code. */
  lemma RoundTrip(clen: seq<nat>, max: nat, full: seq<nat>, skip: nat, list: seq<nat>, rest: seq<bool>)
    requires Kraft(clen, max) && ZerosAgree(full, skip) && 0 < |list| && |clen| <= |list| + 1
    requires Within(Kept(full, skip, 0), list) && AllCoded(clen, Codes(Kept(full, skip, 0), list, 0))
    ensures Read12(clen, max, |full|, skip, CodeString(clen, Codes(Kept(full, skip, 0), list, 0)) + rest,
                   State([], 0, 0, 0, list)) == Values(full, rest)
  {
    hide Codes, Kept, Kraft, Ahead, ZerosAgree, Read12;
    var q := AheadStart(full, skip, list);
    ReadAhead(clen, max, full, skip, rest, State([], 0, 0, 0, list), q, Codes(Kept(full, skip, 0), list, 0));
  }
}
