/** Move-to-front with runs: a repeated front symbol is coded as the digits of
    a run length in bijective base two, any other symbol by its place. */
module MoveToFront {

  const RUN_1 := 1

  function IndexOf(list: seq<nat>, sym: nat): (j: nat)
    requires sym in list
    ensures j < |list| && list[j] == sym && sym !in list[..j]
  {
    if list[0] == sym then 0
    else
      var j := IndexOf(list[1..], sym);
      assert list[..j + 1] == [list[0]] + list[1..][..j];
      j + 1
  }

  function Front(list: seq<nat>, j: nat): (r: seq<nat>)
    requires j < |list|
    ensures |r| == |list| && r[0] == list[j] && forall x :: x in r <==> x in list
  {
    var r := [list[j]] + list[..j] + list[j + 1..];
    assert list == list[..j] + [list[j]] + list[j + 1..];
    r
  }

  function Digits(run: nat): seq<nat> {
    if run == 0 then [] else [(run - 1) % 2] + Digits((run - 1) / 2)
  }

  /** The codes of the symbols when `run` front symbols are not coded yet. */
  function Codes(syms: seq<nat>, list: seq<nat>, run: nat): seq<nat>
    requires forall x | x in syms :: x in list
  {
    if syms == [] then Digits(run)
    else
      var j := IndexOf(list, syms[0]);
      if j == 0 then Codes(syms[1..], list, run + 1)
      else Digits(run) + [j + RUN_1] + Codes(syms[1..], Front(list, j), 0)
  }

  lemma {:induction false} DigitsSize(run: nat)
    ensures |Digits(run)| <= run && forall d | d in Digits(run) :: d <= RUN_1
  {
    if run > 0 { DigitsSize((run - 1) / 2); }
  }

  /** There are never more codes than symbols, and they are in range. */
  lemma {:induction false} CodesSize(syms: seq<nat>, list: seq<nat>, run: nat)
    requires list != [] && forall x | x in syms :: x in list
    ensures |Codes(syms, list, run)| <= |syms| + run
    ensures forall c | c in Codes(syms, list, run) :: c <= |list|
  {
    DigitsSize(run);
    if syms != [] {
      var j := IndexOf(list, syms[0]);
      if j == 0 {
        CodesSize(syms[1..], list, run + 1);
      } else {
        CodesSize(syms[1..], Front(list, j), 0);
        var rest := Codes(syms[1..], Front(list, j), 0);
        assert Codes(syms, list, run) == Digits(run) + [j + RUN_1] + rest;
        assert forall c | c in Digits(run) + [j + RUN_1] + rest :: c in Digits(run) || c == j + RUN_1 || c in rest;
      }
    }
  }

  function Occurrences(s: seq<nat>, c: nat): nat {
    if s == [] then 0 else Occurrences(s[..|s| - 1], c) + if s[|s| - 1] == c then 1 else 0
  }

  lemma OccurrencesSnoc(s: seq<nat>, d: nat)
    ensures forall c :: Occurrences(s + [d], c) == Occurrences(s, c) + if c == d then 1 else 0
  {
    assert (s + [d])[..|s|] == s;
  }

  lemma {:induction false} OccurrencesIn(s: seq<nat>, c: nat)
    ensures Occurrences(s, c) > 0 <==> c in s
  {
    if s != [] {
      OccurrencesIn(s[..|s| - 1], c);
      assert s == s[..|s| - 1] + [s[|s| - 1]];
    }
  }

  /** `djw_update_mtf`. */
  method UpdateMtf(mtf: array<nat>, i: nat) returns (sym: nat)
    requires i < mtf.Length
    modifies mtf
    ensures sym == old(mtf[i]) && mtf[..] == Front(old(mtf[..]), i)
  {
    ghost var l := mtf[..];
    sym := mtf[i];
    var k := i;
    while k != 0
      invariant 0 <= k <= i
      invariant forall j | 0 <= j <= k :: mtf[j] == l[j]
      invariant forall j | k < j <= i :: mtf[j] == l[j - 1]
      invariant forall j | i < j < mtf.Length :: mtf[j] == l[j]
    {
      mtf[k] := mtf[k - 1];
      k := k - 1;
    }
    mtf[0] := sym;
    assert mtf[..] == Front(l, i);
  }

  // What the list is.

  /** The list after some symbols. */
  function After(list: seq<nat>, syms: seq<nat>): (r: seq<nat>)
    requires forall x | x in syms :: x in list
    ensures |r| == |list| && forall x :: x in r <==> x in list
    decreases |syms|
  {
    if syms == [] then list
    else
      var n := |syms| - 1;
      var l := After(list, syms[..n]);
      Front(l, IndexOf(l, syms[n]))
  }

  /** When a symbol was last seen, counted from one; zero if it was not. */
  function Last(syms: seq<nat>, x: nat): nat {
    if syms == [] then 0 else if syms[|syms| - 1] == x then |syms| else Last(syms[..|syms| - 1], x)
  }

  lemma {:induction false} LastWithin(syms: seq<nat>, x: nat)
    ensures Last(syms, x) <= |syms|
  {
    if syms != [] { LastWithin(syms[..|syms| - 1], x); }
  }

  lemma {:induction false} FirstPlace(list: seq<nat>, sym: nat, j: nat)
    requires j < |list| && list[j] == sym && forall i | 0 <= i < j :: list[i] != sym
    ensures IndexOf(list, sym) == j
  {
    if j > 0 { FirstPlace(list[1..], sym, j - 1); }
  }

  /** Moving one symbol leaves the others in order. */
  lemma FrontPlace(list: seq<nat>, j: nat, x: nat)
    requires j < |list| && list[j] !in list[..j] && x in list
    ensures IndexOf(Front(list, j), x)
         == if x == list[j] then 0 else IndexOf(list, x) + if IndexOf(list, x) < j then 1 else 0
  {
    var r, k := Front(list, j), IndexOf(list, x);
    if x == list[j] {
      FirstPlace(r, x, 0);
    } else {
      var m := k + if k < j then 1 else 0;
      forall i | 0 <= i < m ensures r[i] != x {
        if 0 < i <= j {
          assert list[..k][i - 1] == list[i - 1];
        } else if i > j {
          assert list[..k][i] == list[i];
        }
      }
      FirstPlace(r, x, m);
    }
  }

  /** The list holds the symbols seen in the order of when they were last seen, the latest
      first, and then the others in the order of the start. */
  lemma {:induction false} Recency(list: seq<nat>, syms: seq<nat>, a: nat, b: nat)
    requires (forall x | x in syms :: x in list) && a in list && b in list && a != b
    ensures var l := After(list, syms);
      IndexOf(l, a) < IndexOf(l, b) <==>
        Last(syms, a) > Last(syms, b) || (Last(syms, a) == Last(syms, b) && IndexOf(list, a) < IndexOf(list, b))
    decreases |syms|
  {
    hide IndexOf, Front;
    if syms != [] {
      var n := |syms| - 1;
      var l := After(list, syms[..n]);
      Recency(list, syms[..n], a, b);
      LastWithin(syms[..n], a);
      LastWithin(syms[..n], b);
      var j := IndexOf(l, syms[n]);
      FrontPlace(l, j, a);
      FrontPlace(l, j, b);
      DifferentPlaces(l, a, b);
      DifferentPlaces(list, a, b);
      DifferentPlaces(After(list, syms), a, b);
    }
  }

  lemma DifferentPlaces(list: seq<nat>, a: nat, b: nat)
    requires a in list && b in list && a != b
    ensures IndexOf(list, a) != IndexOf(list, b)
  {
  }

  /** The codes so far and their frequencies. */
  ghost predicate Counted(freq: array<nat>, codes: seq<nat>)
    reads freq
  {
    forall c | 0 <= c < freq.Length :: freq[c] == Occurrences(codes, c)
  }

  /** `djw_update_1_2`. */
  method Update12(run: nat, mtfsym0: seq<nat>, freq: array<nat>) returns (mtfsym: seq<nat>)
    requires run > 0 && 2 <= freq.Length && Counted(freq, mtfsym0)
    modifies freq
    ensures mtfsym == mtfsym0 + Digits(run) && Counted(freq, mtfsym)
  {
    mtfsym := mtfsym0;
    var r := run;
    while true
      invariant r > 0 && mtfsym + Digits(r) == mtfsym0 + Digits(run) && Counted(freq, mtfsym)
      decreases r
    {
      r := r - 1;
      var code := r % 2;
      OccurrencesSnoc(mtfsym, code);
      mtfsym := mtfsym + [code];
      freq[code] := freq[code] + 1;
      r := r / 2;
      if r < 1 {
        break;
      }
    }
  }

  lemma CodesCons(x: nat, t: seq<nat>, list: seq<nat>, run: nat)
    requires x in list && forall y | y in t :: y in list
    ensures forall y | y in [x] + t :: y in list
    ensures var j := IndexOf(list, x);
      && j < |list| && |Front(list, j)| == |list| && (forall y | y in list :: y in Front(list, j))
      && Codes([x] + t, list, run)
         == if j == 0 then Codes(t, Front(list, j), run + 1)
            else Digits(run) + ([j + RUN_1] + Codes(t, Front(list, j), 0))
  {
    hide Digits;
    var j, u := IndexOf(list, x), [x] + t;
    assert u[0] == x && u[1..] == t;
    if j == 0 {
      assert Front(list, j) == list;
    } else {
      var rest := Codes(t, Front(list, j), 0);
      assert Digits(run) + [j + RUN_1] + rest == Digits(run) + ([j + RUN_1] + rest);
    }
  }

  /** What coding one symbol adds. */
  lemma NextCode(syms: seq<nat>, i: nat, list: seq<nat>, run: nat)
    requires i < |syms| && forall x | x in syms :: x in list
    ensures forall x | x in syms[i..] :: x in list
    ensures forall x | x in syms[i + 1..] :: x in list
    ensures syms[i] in list && IndexOf(list, syms[i]) < |list|
    ensures var j := IndexOf(list, syms[i]);
      && |Front(list, j)| == |list| && (forall x | x in syms :: x in Front(list, j))
      && Codes(syms[i..], list, run)
         == if j == 0 then Codes(syms[i + 1..], Front(list, j), run + 1)
            else Digits(run) + ([j + RUN_1] + Codes(syms[i + 1..], Front(list, j), 0))
  {
    hide Codes, Digits;
    assert syms[i..] == [syms[i]] + syms[i + 1..];
    CodesCons(syms[i], syms[i + 1..], list, run);
  }

  lemma NoCode(syms: seq<nat>, list: seq<nat>, run: nat)
    ensures Codes(syms[|syms|..], list, run) == Digits(run) && Digits(0) == []
  {
  }

  /** `djw_compute_mtf_1_2`. */
  method ComputeMtf12(symbols: seq<nat>, mtf: array<nat>, nsym: nat) returns (mtfsym: seq<nat>, freq: array<nat>)
    requires 0 < nsym && mtf.Length <= nsym + 1 && forall x | x in symbols :: x in mtf[..]
    modifies mtf
    ensures mtfsym == Codes(symbols, old(mtf[..]), 0)
    ensures fresh(freq) && freq.Length == nsym + 2 && Counted(freq, mtfsym)
  {
    hide Codes, Front, IndexOf, Occurrences, Digits;
    freq := new nat[nsym + 2](_ => 0);
    mtfsym := [];
    var i, run := 0, 0;
    NoOccurrences();
    assert symbols[0..] == symbols;
    while i < |symbols|
      invariant 0 <= i <= |symbols| && Counted(freq, mtfsym) && (forall x | x in symbols :: x in mtf[..])
      invariant forall x | x in symbols[i..] :: x in mtf[..]
      invariant mtfsym + Codes(symbols[i..], mtf[..], run) == Codes(symbols, old(mtf[..]), 0)
    {
      NextCode(symbols, i, mtf[..], run);
      var sym := symbols[i];
      i := i + 1;
      var j := Find(mtf, sym);
      var _ := UpdateMtf(mtf, j);
      if j == 0 {
        run := run + 1;
      } else {
        NoCode(symbols, mtf[..], run);
        if run > 0 {
          mtfsym := Update12(run, mtfsym, freq);
          run := 0;
        }
        OccurrencesSnoc(mtfsym, j + RUN_1);
        mtfsym := mtfsym + [j + RUN_1];
        freq[j + RUN_1] := freq[j + RUN_1] + 1;
      }
    }
    NoCode(symbols, mtf[..], run);
    if run > 0 {
      mtfsym := Update12(run, mtfsym, freq);
    }
  }

  lemma NoOccurrences()
    ensures forall c :: Occurrences([], c) == 0
  {
  }

  /** The place of a symbol in the list. */
  method Find(mtf: array<nat>, sym: nat) returns (j: nat)
    requires sym in mtf[..]
    ensures j < mtf.Length && j == IndexOf(mtf[..], sym)
  {
    j := 0;
    while mtf[j] != sym
      invariant 0 <= j < mtf.Length && sym in mtf[j..] && IndexOf(mtf[..], sym) == j + IndexOf(mtf[j..], sym)
      decreases mtf.Length - j
    {
      assert mtf[j..] == [mtf[j]] + mtf[j + 1..];
      j := j + 1;
    }
  }
}
