/** Code lengths of several groups: the encoder leaves out the zeros of later
    groups, and the decoder those it has seen in the group before. */
module GroupPrefix {
  import opened BitIO
  import opened Canonical
  import opened MoveToFront
  import opened RunDecoder
  import opened RunRoundTrip
  import opened RunSound
  import opened Sequences
  import opened PrefixLengths

  function Concat(tables: seq<seq<nat>>): seq<nat> {
    if tables == [] then [] else Concat(tables[..|tables| - 1]) + tables[|tables| - 1]
  }

  function NonZero(t: seq<nat>): (r: seq<nat>)
    ensures forall x | x in r :: x in t
  {
    if t == [] then []
    else NonZero(t[..|t| - 1]) + if t[|t| - 1] == 0 then [] else [t[|t| - 1]]
  }

  /** The symbols that `djw_compute_multi_prefix` puts together. */
  function MultiPrefix(tables: seq<seq<nat>>): seq<nat>
    requires tables != []
  {
    if |tables| == 1 then tables[0]
    else MultiPrefix(tables[..|tables| - 1]) + NonZero(tables[|tables| - 1])
  }

  /** `djw_compute_multi_prefix`. */
  method ComputeMultiPrefix(clen: seq<seq<nat>>, asize: nat) returns (symbol: seq<nat>)
    requires clen != [] && forall gp | 0 <= gp < |clen| :: |clen[gp]| == asize
    ensures symbol == MultiPrefix(clen)
  {
    symbol := clen[0];
    for gp := 1 to |clen|
      invariant symbol == MultiPrefix(clen[..gp])
    {
      assert clen[..gp + 1][..gp] == clen[..gp];
      ghost var before := symbol;
      for i := 0 to asize
        invariant symbol == before + NonZero(clen[gp][..i])
      {
        assert clen[gp][..i + 1][..i] == clen[gp][..i];
        if clen[gp][i] == 0 {
          continue;
        }
        symbol := symbol + [clen[gp][i]];
      }
      assert clen[gp][..asize] == clen[gp];
    }
    assert clen[..|clen|] == clen;
  }

  ghost predicate Rows(tables: seq<seq<nat>>, a: nat) {
    tables != [] && 0 < a && forall g | 0 <= g < |tables| :: |tables[g]| == a
  }

  ghost predicate ZeroPair(p: seq<nat>, t: seq<nat>) {
    |p| == |t| && forall i | 0 <= i < |t| :: p[i] == 0 <==> t[i] == 0
  }

  /** Every group has its zeros where the group before it has. */
  ghost predicate SameZeros(tables: seq<seq<nat>>) {
    forall g | 0 < g < |tables| :: ZeroPair(tables[g - 1], tables[g])
  }

  /** The entries of row `t` that the decoder reads after row `p`. */
  function Chosen(p: seq<nat>, t: seq<nat>): seq<nat>
    requires |p| == |t|
  {
    if t == [] then [] else (if p[0] == 0 then [] else [t[0]]) + Chosen(p[1..], t[1..])
  }

  /** Reading the last row. */
  lemma {:induction false} KeptLast(f: seq<nat>, t: seq<nat>, i: nat)
    requires i <= |t| <= |f|
    ensures Kept(f + t, |t|, |f| + i) == Chosen(f[|f| - |t|..][i..], t[i..])
    decreases |t| - i
  {
    if i < |t| {
      var p := f[|f| - |t|..];
      KeptLast(f, t, i + 1);
      assert (f + t)[|f| + i] == t[i] && (f + t)[|f| + i - |t|] == p[i];
      assert p[i..][1..] == p[i + 1..] && t[i..][1..] == t[i + 1..];
    }
  }

  /** Reading the rows before it. */
  lemma {:induction false} KeptBefore(f: seq<nat>, t: seq<nat>, n: nat)
    requires n <= |f| && |t| <= |f|
    ensures Kept(f + t, |t|, n) == Kept(f, |t|, n) + Chosen(f[|f| - |t|..], t)
    decreases |f| - n
  {
    hide Chosen;
    if n == |f| {
      KeptLast(f, t, 0);
      assert f[|f| - |t|..][0..] == f[|f| - |t|..] && t[0..] == t;
    } else {
      KeptBefore(f, t, n + 1);
      var skip := |t|;
      assert (f + t)[n] == f[n] && (n >= skip ==> (f + t)[n - skip] == f[n - skip]);
      assert Skipped(f + t, n, skip) <==> Skipped(f, n, skip);
    }
  }

  lemma {:induction false} ConcatSize(tables: seq<seq<nat>>, a: nat)
    requires Rows(tables, a)
    ensures a <= |Concat(tables)| && Concat(tables)[|Concat(tables)| - a..] == tables[|tables| - 1]
    ensures |Concat(tables)| == a * |tables|
  {
    var n := |tables| - 1;
    var f, t := Concat(tables[..n]), tables[n];
    if n > 0 {
      ConcatSize(tables[..n], a);
      assert a * |tables| == a * n + a;
    } else {
      assert tables[..0] == [];
    }
    assert (f + t)[|f|..] == t;
  }

  lemma {:induction false} KeptFirst(t: seq<nat>, n: nat)
    requires n <= |t|
    ensures Kept(t, |t|, n) == t[n..]
    decreases |t| - n
  {
    if n < |t| {
      KeptFirst(t, n + 1);
      assert t[n..] == [t[n]] + t[n + 1..];
    }
  }

  /** What the decoder reads for all rows. */
  lemma KeptRows(tables: seq<seq<nat>>, a: nat)
    requires Rows(tables, a)
    ensures Kept(Concat(tables), a, 0) ==
      if |tables| == 1 then tables[0]
      else Kept(Concat(tables[..|tables| - 1]), a, 0) + Chosen(tables[|tables| - 2], tables[|tables| - 1])
  {
    var n := |tables| - 1;
    if n == 0 {
      assert tables[..0] == [] && [] + tables[0] == tables[0];
      KeptFirst(tables[0], 0);
    } else {
      ConcatSize(tables[..n], a);
      KeptBefore(Concat(tables[..n]), tables[n], 0);
    }
  }

  function CountNonZero(t: seq<nat>): nat {
    if t == [] then 0 else (if t[0] == 0 then 0 else 1) + CountNonZero(t[1..])
  }

  lemma {:induction false} ChosenSize(p: seq<nat>, t: seq<nat>)
    requires |p| == |t|
    ensures |Chosen(p, t)| == CountNonZero(p)
  {
    if t != [] { ChosenSize(p[1..], t[1..]); }
  }

  lemma {:induction false} ChosenNonZero(p: seq<nat>, t: seq<nat>)
    requires ZeroPair(p, t)
    ensures Chosen(p, t) == NonZero(t)
  {
    if t != [] {
      ChosenNonZero(p[1..], t[1..]);
      NonZeroCons(t);
    }
  }

  lemma {:induction false} NonZeroCons(t: seq<nat>)
    requires t != []
    ensures NonZero(t) == (if t[0] == 0 then [] else [t[0]]) + NonZero(t[1..])
  {
    var n := |t| - 1;
    if n > 0 {
      NonZeroCons(t[..n]);
      assert t[..n][1..] == t[1..][..n - 1];
    } else {
      assert t[..0] == [] == t[1..];
    }
  }

  lemma {:induction false} NonZeroSize(t: seq<nat>)
    ensures |NonZero(t)| == CountNonZero(t)
  {
    if t != [] {
      NonZeroCons(t);
      NonZeroSize(t[1..]);
    }
  }

  /** Same zeros: the decoder reads what the encoder wrote, and leaves out zeros
      only. */
  lemma {:induction false} SameZerosKept(tables: seq<seq<nat>>, a: nat)
    requires Rows(tables, a) && SameZeros(tables)
    ensures Kept(Concat(tables), a, 0) == MultiPrefix(tables) && ZerosAgree(Concat(tables), a)
  {
    hide Kept, Chosen, NonZero;
    KeptRows(tables, a);
    var n := |tables| - 1;
    if n == 0 {
      assert tables[..0] == [] && [] + tables[0] == tables[0];
    } else {
      assert SameZeros(tables[..n]) && Rows(tables[..n], a);
      SameZerosKept(tables[..n], a);
      ConcatSize(tables[..n], a);
      assert ZeroPair(tables[n - 1], tables[n]);
      ChosenNonZero(tables[n - 1], tables[n]);
      AgreeAppend(Concat(tables[..n]), tables[n]);
    }
  }

  /** Zeros left out of the last row. */
  lemma AgreeAppend(f: seq<nat>, t: seq<nat>)
    requires 0 < |t| <= |f|
    ensures ZerosAgree(f + t, |t|) <==>
      ZerosAgree(f, |t|) && forall i | 0 <= i < |t| :: f[|f| - |t|..][i] == 0 ==> t[i] == 0
  {
    var g, skip, p := f + t, |t|, f[|f| - |t|..];
    if ZerosAgree(g, skip) {
      forall n | 0 <= n < |f| && Skipped(f, n, skip) ensures f[n] == 0 {
        assert Skipped(g, n, skip) && g[n] == f[n];
      }
      forall i | 0 <= i < |t| && p[i] == 0 ensures t[i] == 0 {
        assert g[|f| + i - skip] == p[i];
        assert Skipped(g, |f| + i, skip) && g[|f| + i] == t[i];
      }
    }
    if ZerosAgree(f, skip) && forall i | 0 <= i < |t| :: p[i] == 0 ==> t[i] == 0 {
      forall n | 0 <= n < |g| && Skipped(g, n, skip) ensures g[n] == 0 {
        if n < |f| {
          assert Skipped(f, n, skip) && g[n] == f[n];
        } else {
          assert p[n - |f|] == 0 && g[n] == t[n - |f|];
        }
      }
    }
  }

  lemma {:induction false} FewerZeros(p: seq<nat>, t: seq<nat>)
    requires |p| == |t| && forall i | 0 <= i < |t| :: p[i] == 0 ==> t[i] == 0
    ensures CountNonZero(t) <= CountNonZero(p) && (CountNonZero(t) == CountNonZero(p) ==> ZeroPair(p, t))
  {
    if t != [] {
      FewerZeros(p[1..], t[1..]);
      if CountNonZero(t) == CountNonZero(p) {
        assert p[0] == 0 <==> t[0] == 0;
        forall i | 0 <= i < |t| ensures p[i] == 0 <==> t[i] == 0 {
          if i > 0 { assert p[i] == p[1..][i - 1] && t[i] == t[1..][i - 1]; }
        }
      }
    }
  }

  /** The decoder reads as many symbols as the encoder wrote only if the zeros
      are the same. */
  lemma {:induction false} KeptSizes(tables: seq<seq<nat>>, a: nat)
    requires Rows(tables, a) && ZerosAgree(Concat(tables), a)
    ensures |MultiPrefix(tables)| <= |Kept(Concat(tables), a, 0)|
    ensures |MultiPrefix(tables)| == |Kept(Concat(tables), a, 0)| ==> SameZeros(tables)
  {
    hide Kept, Chosen, NonZero, ZerosAgree, CountNonZero, ZeroPair;
    KeptRows(tables, a);
    var n := |tables| - 1;
    if n > 0 {
      var f, p, t := Concat(tables[..n]), tables[n - 1], tables[n];
      ConcatSize(tables[..n], a);
      AgreeAppend(f, t);
      KeptSizes(tables[..n], a);
      ChosenSize(p, t);
      NonZeroSize(t);
      FewerZeros(p, t);
      if |MultiPrefix(tables)| == |Kept(Concat(tables), a, 0)| {
        forall g | 0 < g < |tables| ensures ZeroPair(tables[g - 1], tables[g]) {
          if g < n { assert ZeroPair(tables[..n][g - 1], tables[..n][g]); }
        }
      }
    }
  }

  lemma {:induction false} PrefixWithin(tables: seq<seq<nat>>, list: seq<nat>)
    requires tables != [] && forall g | 0 <= g < |tables| :: Within(tables[g], list)
    ensures Within(MultiPrefix(tables), list)
  {
    var n := |tables| - 1;
    if n > 0 {
      PrefixWithin(tables[..n], list);
      assert Within(tables[n], list);
    }
  }

  lemma CodesAtStart(full: seq<nat>, skip: nat, list: seq<nat>, q: nat, cs: seq<nat>)
    requires Ahead(full, skip, State([], 0, 0, 0, list), q, cs)
    ensures Within(Kept(full, skip, 0), list) && cs == Codes(Kept(full, skip, 0), list, 0)
  {
    hide Codes, Kept, Digits;
    var k := Kept(full, skip, 0);
    assert 0 + Pow2(0) * q == 0 + q;
    RunIs(k, list[0], q);
    RunSplit(k, list, 0);
  }

  lemma SkippedAgree(full: seq<nat>, skip: nat)
    requires ZerosFrom(full, skip, 0)
    ensures ZerosAgree(full, skip)
  {
  }

  /** The decoder gets the code lengths of all groups back, and stops where they
      end, exactly when the groups have the same zeros. */
  lemma GroupsIff(tables: seq<seq<nat>>, a: nat, cl: seq<nat>, max: nat, list: seq<nat>, rest: seq<bool>)
    requires Rows(tables, a) && (forall g | 0 <= g < |tables| :: Within(tables[g], list)) && Within(MultiPrefix(tables), list)
    requires Kraft(cl, max) && 0 < |list| && |cl| <= |list| + 1 && Distinct(list)
    requires AllCoded(cl, Codes(MultiPrefix(tables), list, 0))
    ensures var b := CodeString(cl, Codes(MultiPrefix(tables), list, 0)) + rest;
      Read12(cl, max, |Concat(tables)|, a, b, State([], 0, 0, 0, list)) == Values(Concat(tables), rest) <==> SameZeros(tables)
  {
    hide Kept, Codes, Kraft, Read12, CodeString, MultiPrefix, Ahead, ZerosAgree, Concat;
    var full, cs := Concat(tables), Codes(MultiPrefix(tables), list, 0);
    var b := CodeString(cl, cs) + rest;
    if SameZeros(tables) {
      SameZerosKept(tables, a);
      RunRoundTrip.RoundTrip(cl, max, full, a, list, rest);
    }
    if Read12(cl, max, |full|, a, b, State([], 0, 0, 0, list)) == Values(full, rest) {
      var q, ds := ReadSound(cl, max, |full|, a, b, State([], 0, 0, 0, list));
      CodesAtStart(full, a, list, q, ds);
      SkippedAgree(full, a);
      Cancel(CodeString(cl, cs), CodeString(cl, ds), rest);
      OneReading(cl, max, cs, ds);
      CodesCount(MultiPrefix(tables), list, 0);
      CodesCount(Kept(full, a, 0), list, 0);
      KeptSizes(tables, a);
    }
  }

  lemma Cancel(x: seq<bool>, y: seq<bool>, rest: seq<bool>)
    requires x + rest == y + rest
    ensures x == y
  {
    assert |x| == |y|;
    assert x == (x + rest)[..|x|] == (y + rest)[..|y|] == y;
  }

  /** Code lengths of one group, as `djw_build_prefix` makes them. */
  ghost predicate GroupTable(freq: seq<nat>, clen: seq<nat>, max: nat) {
    && freq != [] && |clen| == |freq|
    && if Overflows(freq, max) then forall i | 0 <= i < |freq| :: clen[i] > 0 else CodesFor(WithSecond(freq), clen)
  }

  /** The groups of one window have frequencies for the same symbols: every symbol
      of the input, in every group. */
  ghost predicate SameSymbols(f: seq<nat>, g: seq<nat>) {
    |f| == |g| && forall i | 0 <= i < |f| :: f[i] > 0 <==> g[i] > 0
  }

  lemma {:induction false} SamePositives(f: seq<nat>, g: seq<nat>, n: nat)
    requires SameSymbols(f, g) && n <= |f|
    ensures Positives(f, n) == Positives(g, n)
  {
    if n > 0 { SamePositives(f, g, n - 1); }
  }

  lemma SecondSame(f: seq<nat>, g: seq<nat>)
    requires SameSymbols(f, g) && f != []
    ensures SameSymbols(WithSecond(f), WithSecond(g))
  {
    SamePositives(f, g, |f|);
  }

  /** All groups are rescaled because a code grew too long, or none is, or every
      symbol of the alphabet occurs anyway. */
  ghost predicate AlikeOrFull(freqs: seq<seq<nat>>, max: nat)
    requires freqs != [] && forall g | 0 <= g < |freqs| :: freqs[g] != []
  {
    || (forall g | 0 <= g < |freqs| :: Overflows(freqs[g], max) <==> Overflows(freqs[0], max))
    || forall i | 0 <= i < |WithSecond(freqs[0])| :: WithSecond(freqs[0])[i] > 0
  }

  /** When that is, told from the frequencies. */
  lemma SameZerosIff(freqs: seq<seq<nat>>, tables: seq<seq<nat>>, max: nat)
    requires |freqs| == |tables| && tables != [] && freqs[0] != []
    requires forall g | 0 <= g < |tables| :: GroupTable(freqs[g], tables[g], max) && SameSymbols(freqs[0], freqs[g])
    ensures (forall g | 0 <= g < |freqs| :: freqs[g] != []) && (SameZeros(tables) <==> AlikeOrFull(freqs, max))
  {
    hide WithSecond, Overflows, SameSymbols;
    assert forall g | 0 <= g < |freqs| :: freqs[g] != [];
    hide GroupTable;
    var f := WithSecond(freqs[0]);
    forall g | 0 <= g < |tables| ensures TableIs(f, tables[g], Overflows(freqs[g], max)) {
      OneTable(freqs[0], freqs[g], tables[g], max);
    }
    if SameZeros(tables) && exists i :: 0 <= i < |f| && f[i] == 0 {
      var i :| 0 <= i < |f| && f[i] == 0;
      forall g | 0 <= g < |tables| ensures Overflows(freqs[g], max) <==> Overflows(freqs[0], max) {
        AllZeros(tables, i, g);
        assert TableIs(f, tables[g], Overflows(freqs[g], max)) && TableIs(f, tables[0], Overflows(freqs[0], max));
      }
    }
    SecondSize(freqs[0]);
    if AlikeOrFull(freqs, max) {
      forall g | 0 < g < |tables| ensures ZeroPair(tables[g - 1], tables[g]) {
        assert TableIs(f, tables[g], Overflows(freqs[g], max)) && TableIs(f, tables[g - 1], Overflows(freqs[g - 1], max));
      }
    }
  }

  ghost predicate TableIs(f: seq<nat>, clen: seq<nat>, rescaled: bool) {
    |clen| == |f| && forall i | 0 <= i < |f| :: clen[i] > 0 <==> rescaled || f[i] > 0
  }

  lemma OneTable(f0: seq<nat>, f: seq<nat>, clen: seq<nat>, max: nat)
    requires GroupTable(f, clen, max) && SameSymbols(f0, f)
    ensures f0 != [] && TableIs(WithSecond(f0), clen, Overflows(f, max))
  {
    SecondSame(f0, f);
  }

  lemma SecondSize(f: seq<nat>)
    requires f != []
    ensures |WithSecond(f)| == |f|
  {
  }

  lemma {:induction false} AllZeros(tables: seq<seq<nat>>, i: nat, g: nat)
    requires SameZeros(tables) && g < |tables| && i < |tables[0]|
    ensures i < |tables[g]| && (tables[g][i] == 0 <==> tables[0][i] == 0)
  {
    if g > 0 {
      AllZeros(tables, i, g - 1);
      assert ZeroPair(tables[g - 1], tables[g]);
    }
  }
}
