/** The converse of the round trip of runs: whatever is decoded was coded, and in
    one way only. */
module RunSound {
  import opened BitIO
  import opened Canonical
  import opened MoveToFront
  import opened RunDecoder
  import opened RunRoundTrip
  import opened Sequences

  lemma IndexIs(list: seq<nat>, j: nat)
    requires Distinct(list) && j < |list|
    ensures list[j] in list && IndexOf(list, list[j]) == j
  {
    var i := IndexOf(list, list[j]);
    assert list[i] == list[j];
  }

  lemma FrontDistinct(list: seq<nat>, j: nat)
    requires Distinct(list) && j < |list|
    ensures Distinct(Front(list, j))
  {
  }

  /** What holds of a state in which a place has been read. */
  ghost predicate Pending(elts: nat, skip: nat, d: State) {
    d.mtf > 0 ==> d.rep == 0 && d.s == 0 && |d.vals| < elts && !Skipped(d.vals, |d.vals|, skip)
  }

  ghost predicate ZerosFrom(full: seq<nat>, skip: nat, n: nat) {
    forall i | n <= i < |full| && Skipped(full, i, skip) :: full[i] == 0
  }

  ghost predicate Coded(clen: seq<nat>, full: seq<nat>, skip: nat, d: State, q: nat, cs: seq<nat>) {
    Ahead(full, skip, d, q, cs) && AllCoded(clen, cs) && ZerosFrom(full, skip, |d.vals|)
  }

  lemma SoundEnd(clen: seq<nat>, full: seq<nat>, skip: nat, d: State)
    requires d.vals == full && d.rep == 0 && d.mtf == 0 && 0 < |d.list|
    ensures Coded(clen, full, skip, d, 0, [])
  {
    assert Kept(full, skip, |full|) == [];
    assert Pow2(d.s) * 0 == 0;
    assert full[..|full|] == full;
  }

  lemma SoundSkip(clen: seq<nat>, full: seq<nat>, skip: nat, d: State, q: nat, cs: seq<nat>)
    requires Coded(clen, full, skip, d.(vals := d.vals + [0]), q, cs) && |d.vals| < |full|
    requires Skipped(d.vals, |d.vals|, skip) && d.mtf == 0
    ensures Coded(clen, full, skip, d, q, cs)
  {
    hide Codes, Digits, Pow2, AllCoded;
    var n := |d.vals|;
    assert full[..n + 1] == d.vals + [0];
    assert full[..n] == d.vals && full[n] == 0;
    KeptStep(full, skip, d.vals);
  }

  lemma SoundRep(clen: seq<nat>, full: seq<nat>, skip: nat, d: State, q: nat, cs: seq<nat>)
    requires 0 < |d.list| && d.rep != 0 && d.mtf == 0 && |d.vals| < |full| && !Skipped(d.vals, |d.vals|, skip)
    requires Coded(clen, full, skip, d.(vals := d.vals + [d.list[0]], rep := d.rep - 1), q, cs)
    ensures Coded(clen, full, skip, d, q, cs)
  {
    hide Codes, Digits, Pow2, AllCoded, Kept;
    var n := |d.vals|;
    Extends(full, d.vals, d.list[0]);
    KeptStep(full, skip, d.vals);
    KeptNext(full, skip, n);
    var k, k' := Kept(full, skip, n), Kept(full, skip, n + 1);
    var m := d.rep + Pow2(d.s) * q;
    assert k == [d.list[0]] + k';
    assert k[m..] == k'[m - 1..];
    assert forall i | 0 < i < m :: k[i] == k'[i - 1];
  }

  lemma Extends(full: seq<nat>, vals: seq<nat>, x: nat)
    requires |vals| < |full| && full[..|vals| + 1] == vals + [x]
    ensures full[..|vals|] == vals && full[|vals|] == x
  {
    assert full[..|vals| + 1][|vals|] == x;
    assert full[..|vals|] == full[..|vals| + 1][..|vals|];
  }

  lemma {:induction false} RunIs(k: seq<nat>, x: nat, q: nat)
    requires q <= |k| && (forall i | 0 <= i < q :: k[i] == x) && (q < |k| ==> k[q] != x)
    ensures LeadRun(k, x) == q
  {
    if q > 0 {
      assert forall i | 0 <= i < q - 1 :: k[1..][i] == k[i + 1];
      RunIs(k[1..], x, q - 1);
    }
  }

  lemma SoundSymbol(clen: seq<nat>, full: seq<nat>, skip: nat, d: State, q: nat, cs: seq<nat>)
    requires d.rep == 0 && d.s == 0 && 0 < d.mtf < |d.list| && |d.vals| < |full| && !Skipped(d.vals, |d.vals|, skip)
    requires Coded(clen, full, skip, d.(vals := d.vals + [d.list[d.mtf]], mtf := 0, list := Front(d.list, d.mtf)), q, cs)
    ensures Coded(clen, full, skip, d, 0, cs)
  {
    hide Codes, Digits, AllCoded, Kept, LeadRun;
    var n, list := |d.vals|, Front(d.list, d.mtf);
    Extends(full, d.vals, d.list[d.mtf]);
    KeptStep(full, skip, d.vals);
    KeptNext(full, skip, n);
    var k, k' := Kept(full, skip, n), Kept(full, skip, n + 1);
    assert k == [d.list[d.mtf]] + k' && k[1..] == k';
    assert 0 + Pow2(0) * q == 0 + q;
    RunIs(k', list[0], q);
    RunSplit(k', list, 0);
  }

  lemma SoundDigit(clen: seq<nat>, full: seq<nat>, skip: nat, d: State, c: nat, q: nat, cs: seq<nat>)
    requires d.rep == 0 && d.mtf == 0 && c <= RUN_1 && c < |clen| && clen[c] > 0
    requires Coded(clen, full, skip, AfterCode(d, c), q, cs)
    ensures Coded(clen, full, skip, d, c + 1 + 2 * q, [c] + cs)
  {
    hide Codes, Digits, Kept, Pow2;
    DigitUnits(c + 1 + 2 * q, d.s);
    var k := Kept(full, skip, |d.vals|);
    var tail := Codes(k[Pow2(d.s) * (c + 1 + 2 * q)..], d.list, 0);
    assert [c] + (Digits(q) + tail) == [c] + Digits(q) + tail;
  }

  lemma SoundPlace(clen: seq<nat>, full: seq<nat>, skip: nat, d: State, c: nat, q: nat, cs: seq<nat>)
    requires d.rep == 0 && d.mtf == 0 && RUN_1 < c < |clen| && clen[c] > 0 && Distinct(d.list) && c - RUN_1 < |d.list|
    requires Coded(clen, full, skip, AfterCode(d, c), q, cs)
    ensures Coded(clen, full, skip, d, 0, [c] + cs)
  {
    hide Codes, Kept, Front, Pow2, Digits, Distinct;
    var k := Kept(full, skip, |d.vals|);
    PlaceCodes(k, d.list, c);
    assert Pow2(d.s) * 0 == 0 && k[0..] == k;
  }

  lemma PlaceCodes(k: seq<nat>, list: seq<nat>, c: nat)
    requires Within(k, list) && k != [] && Distinct(list) && RUN_1 < c && c - RUN_1 < |list| && k[0] == list[c - RUN_1]
    ensures Within(k[1..], Front(list, c - RUN_1)) && k[0] != list[0]
    ensures Digits(0) + Codes(k, list, 0) == [c] + Codes(k[1..], Front(list, c - RUN_1), 0)
  {
    hide Codes, Front, IndexOf, Digits;
    EmptyCodes(list, 0);
    IndexIs(list, c - RUN_1);
    var t := k[1..];
    assert k == [k[0]] + t;
    WithinRest(k, list, 1);
    CodesCons(k[0], t, list, 0);
    var tail := [c] + Codes(t, Front(list, c - RUN_1), 0);
    assert Digits(0) + tail == tail;
  }

  /** Whatever is decoded was coded: the bits read are the codes of the values
      kept, and the values left out are zero. */
  lemma {:induction false} ReadSound(clen: seq<nat>, max: nat, elts: nat, skip: nat, b: seq<bool>, d: State) returns (q: nat, cs: seq<nat>)
    requires Kraft(clen, max) && Usable(clen, elts, d) && Distinct(d.list) && Pending(elts, skip, d)
    requires Read12(clen, max, elts, skip, b, d).Values?
    ensures var r := Read12(clen, max, elts, skip, b, d);
      |r.vals| == elts && Coded(clen, r.vals, skip, d, q, cs) && b == CodeString(clen, cs) + r.rest
    decreases elts - |d.vals|, if d.rep == 0 && d.mtf == 0 then 1 else 0
  {
    hide Coded, Kraft, Decode, Read12, Front, Distinct, CodeBits;
    Read12Step(clen, max, elts, skip, b, d);
    var n := |d.vals|;
    var r := Read12(clen, max, elts, skip, b, d);
    if n == elts {
      q, cs := 0, [];
      SoundEnd(clen, r.vals, skip, d);
      assert CodeString(clen, []) + b == b;
    } else if Skipped(d.vals, n, skip) {
      q, cs := ReadSound(clen, max, elts, skip, b, d.(vals := d.vals + [0]));
      SoundSkip(clen, r.vals, skip, d, q, cs);
    } else if d.rep != 0 {
      q, cs := ReadSound(clen, max, elts, skip, b, d.(vals := d.vals + [d.list[0]], rep := d.rep - 1));
      SoundRep(clen, r.vals, skip, d, q, cs);
    } else if d.mtf != 0 {
      FrontDistinct(d.list, d.mtf);
      FrontSize(d.list, d.mtf);
      q, cs := ReadSound(clen, max, elts, skip, b,
                         d.(vals := d.vals + [d.list[d.mtf]], mtf := 0, list := Front(d.list, d.mtf)));
      SoundSymbol(clen, r.vals, skip, d, q, cs);
      q := 0;
    } else {
      var c := Decode(clen, max, b);
      DecodeIffCode(clen, max, b, c.sym, c.rest);
      AfterUsable(clen, max, elts, d, b);
      q, cs := ReadSound(clen, max, elts, skip, c.rest, AfterCode(d, c.sym));
      CodedIs(clen, r.vals, skip, AfterCode(d, c.sym), q, cs);
      if c.sym <= RUN_1 {
        SoundDigit(clen, r.vals, skip, d, c.sym, q, cs);
        q := c.sym + 1 + 2 * q;
      } else {
        SoundPlace(clen, r.vals, skip, d, c.sym, q, cs);
        q := 0;
      }
      StringCons(clen, c.sym, cs, r.rest);
      cs := [c.sym] + cs;
    }
  }

  lemma FrontSize(list: seq<nat>, j: nat)
    requires j < |list|
    ensures |Front(list, j)| == |list|
  {
  }

  lemma CodedIs(clen: seq<nat>, full: seq<nat>, skip: nat, d: State, q: nat, cs: seq<nat>)
    requires Coded(clen, full, skip, d, q, cs)
    ensures AllCoded(clen, cs)
  {
  }

  lemma StringCons(clen: seq<nat>, c: nat, cs: seq<nat>, rest: seq<bool>)
    requires AllCoded(clen, cs) && c < |clen| && clen[c] > 0
    ensures AllCoded(clen, [c] + cs)
    ensures CodeString(clen, [c] + cs) + rest == CodeBits(clen, c) + (CodeString(clen, cs) + rest)
  {
    var s := [c] + cs;
    assert s[1..] == cs;
    assert CodeBits(clen, c) + CodeString(clen, cs) + rest == CodeBits(clen, c) + (CodeString(clen, cs) + rest);
  }

  /** A prefix code is read in one way. */
  lemma {:induction false} OneReading(clen: seq<nat>, max: nat, a: seq<nat>, b: seq<nat>)
    requires Kraft(clen, max) && AllCoded(clen, a) && AllCoded(clen, b) && CodeString(clen, a) == CodeString(clen, b)
    ensures a == b
  {
    hide Kraft, Decode, CodeBits;
    if a == [] {
      if b != [] { NotEmpty(clen, b); }
    } else if b == [] {
      NotEmpty(clen, a);
    } else {
      CodeNext(clen, max, a, []);
      CodeNext(clen, max, b, []);
      assert CodeString(clen, a[1..]) + [] == CodeString(clen, a[1..]);
      assert CodeString(clen, b[1..]) + [] == CodeString(clen, b[1..]);
      OneReading(clen, max, a[1..], b[1..]);
    }
  }

  lemma NotEmpty(clen: seq<nat>, a: seq<nat>)
    requires AllCoded(clen, a) && a != []
    ensures CodeString(clen, a) != []
  {
    assert |CodeBits(clen, a[0])| == clen[a[0]] > 0;
  }

  /** How many symbols codes stand for. */
  function Symbols(cs: seq<nat>, s: nat): nat {
    if cs == [] then 0
    else if cs[0] <= RUN_1 then (cs[0] + 1) * Pow2(s) + Symbols(cs[1..], s + 1)
    else 1 + Symbols(cs[1..], 0)
  }

  lemma {:induction false} DigitsCount(run: nat, s: nat, tail: seq<nat>)
    requires tail == [] || tail[0] > RUN_1
    ensures Symbols(Digits(run) + tail, s) == Pow2(s) * run + Symbols(tail, 0)
    decreases run
  {
    hide Pow2;
    if run == 0 {
      assert Digits(0) + tail == tail && Pow2(s) * 0 == 0;
    } else {
      DigitUnits(run, s);
      var all := Digits(run) + tail;
      assert all[0] == (run - 1) % 2 && all[1..] == Digits((run - 1) / 2) + tail;
      DigitsCount((run - 1) / 2, s + 1, tail);
    }
  }

  lemma {:induction false} CodesCount(syms: seq<nat>, list: seq<nat>, run: nat)
    requires Within(syms, list)
    ensures Symbols(Codes(syms, list, run), 0) == run + |syms|
  {
    hide Front, Digits, Symbols, Codes, IndexOf;
    EmptyCodes(list, run);
    assert Pow2(0) * run == run;
    if syms == [] {
      DigitsCount(run, 0, []);
      assert Digits(run) + [] == Digits(run);
      NoSymbols();
    } else {
      var j, t := IndexOf(list, syms[0]), syms[1..];
      assert syms == [syms[0]] + t;
      CodesCons(syms[0], t, list, run);
      if j == 0 {
        CodesCount(t, Front(list, j), run + 1);
      } else {
        CodesCount(t, Front(list, j), 0);
        var tail := [j + RUN_1] + Codes(t, Front(list, j), 0);
        DigitsCount(run, 0, tail);
        OneSymbol(j + RUN_1, Codes(t, Front(list, j), 0));
      }
    }
  }

  lemma NoSymbols()
    ensures Symbols([], 0) == 0
  {
  }

  lemma OneSymbol(c: nat, cs: seq<nat>)
    requires c > RUN_1
    ensures Symbols([c] + cs, 0) == 1 + Symbols(cs, 0)
  {
    assert ([c] + cs)[1..] == cs;
  }
}
