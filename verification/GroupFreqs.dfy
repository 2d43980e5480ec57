/** The frequencies of each group of sectors, and when the code lengths that come
    of them have the same zeros in all groups. */
module GroupFreqs {
  import opened Bytes
  import opened CodeTree
  import opened TreeHeight
  import opened PrefixLengths
  import opened MoveToFront
  import opened RunRoundTrip
  import opened GroupPrefix
  import opened Canonical
  import opened Huffman
  import opened HuffmanGroups
  import opened HuffmanCodec

  /** The sectors of group `g`, one after the other. */
  function GroupBytes(input: seq<nat>, sel: seq<nat>, size: nat, g: nat): (r: seq<nat>)
    requires 0 < size && |sel| == Sectors(|input|, size)
    ensures |r| <= |input| && forall x | x in r :: x in input
    decreases |input|
  {
    if input == [] then []
    else
      var n := Min(size, |input|);
      assert input == input[..n] + input[n..];
      var more := GroupBytes(input[n..], sel[1..], size, g);
      if sel[0] == g then input[..n] + more else more
  }

  /** The frequencies of a group with bytes `b`: how often each symbol occurs in its
      sectors, and one for a symbol that occurs only in sectors of other groups. */
  function FreqsOf(b: seq<nat>, input: seq<nat>): (f: seq<nat>)
    ensures |f| == ALPHABET_SIZE
  {
    seq(ALPHABET_SIZE, c requires 0 <= c < ALPHABET_SIZE => if Lent(b, input, c) then 1 else Occurrences(b, c))
  }

  /** Symbol `c` of the input does not occur in the group. */
  predicate Lent(b: seq<nat>, input: seq<nat>, c: nat) {
    c !in b && c in input
  }

  function GroupFreq(input: seq<nat>, sel: seq<nat>, size: nat, g: nat): (f: seq<nat>)
    requires 0 < size && |sel| == Sectors(|input|, size)
    ensures |f| == ALPHABET_SIZE
  {
    FreqsOf(GroupBytes(input, sel, size, g), input)
  }

  /** In every group every symbol of the input occurs, and no other does. */
  ghost predicate Shows(freq: seq<nat>, input: seq<nat>) {
    |freq| == ALPHABET_SIZE && forall c | 0 <= c < ALPHABET_SIZE :: freq[c] > 0 <==> c in input
  }

  lemma GroupShows(input: seq<nat>, sel: seq<nat>, size: nat, g: nat)
    requires 0 < size && |sel| == Sectors(|input|, size)
    ensures Shows(GroupFreq(input, sel, size, g), input)
  {
    var b := GroupBytes(input, sel, size, g);
    forall c | 0 <= c < ALPHABET_SIZE ensures GroupFreq(input, sel, size, g)[c] > 0 <==> c in input {
      OccurrencesIn(b, c);
    }
  }

  // Counting.

  lemma {:induction false} OccurrencesConcat(s: seq<nat>, t: seq<nat>, c: nat)
    ensures Occurrences(s + t, c) == Occurrences(s, c) + Occurrences(t, c)
  {
    if t == [] {
      assert s + t == s;
    } else {
      assert (s + t)[..|s + t| - 1] == s + t[..|t| - 1];
      OccurrencesConcat(s, t[..|t| - 1], c);
    }
  }

  /** How often symbol `c` of group `g` still has to be counted. */
  function Uncounted(input: seq<nat>, sel: seq<nat>, size: nat, g: nat, c: nat): nat
    requires 0 < size && |sel| == Sectors(|input|, size)
  {
    Occurrences(GroupBytes(input, sel, size, g), c)
  }

  lemma UncountedStep(input: seq<nat>, sel: seq<nat>, size: nat, g: nat, c: nat)
    requires 0 < size && |sel| == Sectors(|input|, size) && input != []
    ensures var n := Min(size, |input|);
      && |sel| > 0 && |sel[1..]| == Sectors(|input[n..]|, size)
      && Uncounted(input, sel, size, g, c)
         == Uncounted(input[n..], sel[1..], size, g, c) + if g == sel[0] then Occurrences(input[..n], c) else 0
  {
    var n := Min(size, |input|);
    OccurrencesConcat(input[..n], GroupBytes(input[n..], sel[1..], size, g), c);
  }

  /** Each count, with what is still to come of input and sectors, adds up. */
  ghost predicate Counting(ef: array2<nat>, input: seq<nat>, sel: seq<nat>, input': seq<nat>, sel': seq<nat>, size: nat)
    reads ef
    requires 0 < size && |sel| == Sectors(|input|, size) && |sel'| == Sectors(|input'|, size)
  {
    ef.Length1 == ALPHABET_SIZE && forall g, c | 0 <= g < ef.Length0 && 0 <= c < ALPHABET_SIZE ::
      ef[g, c] + Uncounted(input', sel', size, g, c) == Uncounted(input, sel, size, g, c)
  }

  /** Count a sector for the group that won it. */
  method Tally(ef: array2<nat>, winner: nat, sector: seq<byte>)
    requires ef.Length1 == ALPHABET_SIZE && winner < ef.Length0
    modifies ef
    ensures forall g, c | 0 <= g < ef.Length0 && 0 <= c < ALPHABET_SIZE ::
      ef[g, c] == old(ef[g, c]) + if g == winner then Occurrences(sector, c) else 0
  {
    hide Occurrences;
    NoOccurrences();
    for i := 0 to |sector|
      invariant forall g, c | 0 <= g < ef.Length0 && 0 <= c < ALPHABET_SIZE ::
        ef[g, c] == old(ef[g, c]) + if g == winner then Occurrences(sector[..i], c) else 0
    {
      OccurrencesSnoc(sector[..i], sector[i]);
      assert sector[..i + 1] == sector[..i] + [sector[i]];
      ef[winner, sector[i]] := ef[winner, sector[i]] + 1;
    }
    assert sector[..|sector|] == sector;
  }

  /** The sectors counted, each for its group. */
  method CountSectors(input: seq<byte>, sel: seq<nat>, size: nat, groups: nat) returns (ef: array2<nat>)
    requires 0 < size && |sel| == Sectors(|input|, size) && Chooses(sel, groups)
    ensures fresh(ef) && ef.Length0 == groups && ef.Length1 == ALPHABET_SIZE
    ensures forall g, c | 0 <= g < groups && 0 <= c < ALPHABET_SIZE :: ef[g, c] == Uncounted(input, sel, size, g, c)
  {
    hide Occurrences, Uncounted, Sectors;
    ef := new nat[groups, ALPHABET_SIZE]((g, c) => 0);
    var at, k := 0, 0;
    assert input[0..] == input && sel[0..] == sel;
    while at < |input|
      invariant at <= |input| && k <= |sel| && |sel[k..]| == Sectors(|input[at..]|, size)
      invariant Counting(ef, input, sel, input[at..], sel[k..], size)
    {
      var n := Min(size, |input| - at);
      SectorSplit(input, sel, size, at, k);
      var sector := input[at..at + n];
      assert input[at..][..n] == sector && input[at..][n..] == input[at + n..] && sel[k..][1..] == sel[k + 1..];
      forall g, c | 0 <= g < groups && 0 <= c < ALPHABET_SIZE
        ensures Uncounted(input[at..], sel[k..], size, g, c)
                == Uncounted(input[at + n..], sel[k + 1..], size, g, c) + if g == sel[k] then Occurrences(sector, c) else 0
      {
        UncountedStep(input[at..], sel[k..], size, g, c);
      }
      Tally(ef, sel[k], sector);
      at, k := at + n, k + 1;
    }
    AllCounted(input[at..], sel[k..], size);
  }

  lemma SectorSplit(input: seq<byte>, sel: seq<nat>, size: nat, at: nat, k: nat)
    requires 0 < size && at < |input| && k <= |sel| && |sel[k..]| == Sectors(|input[at..]|, size)
    ensures k < |sel| && |sel[k + 1..]| == Sectors(|input[at + Min(size, |input| - at)..]|, size)
  {
  }

  lemma AllCounted(input: seq<nat>, sel: seq<nat>, size: nat)
    requires 0 < size && |sel| == Sectors(|input|, size) && input == []
    ensures forall g: nat, c: nat :: Uncounted(input, sel, size, g, c) == 0
  {
  }

  /** Which symbols of the input do not occur in a group. */
  ghost predicate Lending(zero: seq<bool>, b: seq<nat>, input: seq<nat>) {
    |zero| == ALPHABET_SIZE && forall c | 0 <= c < ALPHABET_SIZE :: zero[c] <==> Lent(b, input, c)
  }

  /** The frequencies that `djw_build_prefix` is given for each group: a symbol of
      the input that does not occur in a group still gets a code there. */
  method EvolveFreqs(input: seq<byte>, occurs: seq<nat>, sel: seq<nat>, size: nat, groups: nat)
      returns (freqs: seq<seq<nat>>, zeros: seq<seq<bool>>)
    requires 0 < size && |sel| == Sectors(|input|, size) && Chooses(sel, groups)
    requires |occurs| == ALPHABET_SIZE && forall c | 0 <= c < ALPHABET_SIZE :: occurs[c] == Occurrences(input, c)
    ensures |freqs| == groups && forall g | 0 <= g < groups :: freqs[g] == GroupFreq(input, sel, size, g)
    ensures |zeros| == groups && forall g | 0 <= g < groups :: Lending(zeros[g], GroupBytes(input, sel, size, g), input)
  {
    hide Occurrences, GroupBytes, Sectors;
    var ef := CountSectors(input, sel, size, groups);
    freqs, zeros := [], [];
    for g := 0 to groups
      invariant |freqs| == g && forall h | 0 <= h < g :: freqs[h] == GroupFreq(input, sel, size, h)
      invariant forall h, c | g <= h < groups && 0 <= c < ALPHABET_SIZE :: ef[h, c] == Uncounted(input, sel, size, h, c)
      invariant |zeros| == g && forall h | 0 <= h < g :: Lending(zeros[h], GroupBytes(input, sel, size, h), input)
    {
      ghost var b := GroupBytes(input, sel, size, g);
      var row := RowOf(ef, g);
      assert forall c | 0 <= c < ALPHABET_SIZE :: row[c] == Uncounted(input, sel, size, g, c) == Occurrences(b, c);
      var freq, zero := FillGroup(input, occurs, row, b);
      freqs, zeros := freqs + [freq], zeros + [zero];
    }
  }

  function RowOf(ef: array2<nat>, g: nat): (row: seq<nat>)
    requires g < ef.Length0
    reads ef
    ensures |row| == ef.Length1 && forall c | 0 <= c < ef.Length1 :: row[c] == ef[g, c]
  {
    seq(ef.Length1, c requires 0 <= c < ef.Length1 reads ef => ef[g, c])
  }

  method FillGroup(input: seq<byte>, occurs: seq<nat>, counts: seq<nat>, ghost b: seq<nat>) returns (freq: seq<nat>, zero: seq<bool>)
    requires |occurs| == ALPHABET_SIZE && forall c | 0 <= c < ALPHABET_SIZE :: occurs[c] == Occurrences(input, c)
    requires |counts| == ALPHABET_SIZE && forall c | 0 <= c < ALPHABET_SIZE :: counts[c] == Occurrences(b, c)
    ensures freq == FreqsOf(b, input) && Lending(zero, b, input)
  {
    hide Occurrences;
    freq, zero := counts, seq(ALPHABET_SIZE, c => false);
    for c := 0 to ALPHABET_SIZE
      invariant |freq| == |zero| == ALPHABET_SIZE
      invariant forall k | 0 <= k < c :: freq[k] == FreqsOf(b, input)[k] && (zero[k] <==> Lent(b, input, k))
      invariant forall k | c <= k < ALPHABET_SIZE :: freq[k] == counts[k] && !zero[k]
    {
      OccurrencesIn(input, c);
      OccurrencesIn(b, c);
      if freq[c] == 0 && occurs[c] != 0 {
        freq, zero := freq[c := 1], zero[c := true];
      }
    }
  }

  /** The bits for symbols that do not occur. */
  function ZeroCost(clen: seq<nat>, zero: seq<bool>, n: nat): nat
    requires n <= |clen| == |zero|
  {
    if n == 0 then 0 else ZeroCost(clen, zero, n - 1) + if zero[n - 1] then clen[n - 1] else 0
  }

  lemma {:induction false} CostFilled(b: seq<nat>, input: seq<nat>, zero: seq<bool>, clen: seq<nat>, n: nat)
    requires Lending(zero, b, input) && n <= |clen| == ALPHABET_SIZE
    ensures Cost(FreqsOf(b, input), clen, n) == Cost(Frequencies(b, ALPHABET_SIZE), clen, n) + ZeroCost(clen, zero, n)
  {
    hide Occurrences;
    if n > 0 {
      CostFilled(b, input, zero, clen, n - 1);
      OccurrencesIn(b, n - 1);
      ProductZero(clen[n - 1]);
    }
  }

  lemma ProductZero(x: nat)
    ensures x * 0 == 0 && x * 1 == x
  {
  }

  /** Code lengths for a group, and the bits that its bytes take: what
      `djw_build_prefix` promises, without the symbols that do not occur. */
  method GroupCode(input: seq<byte>, freq: seq<nat>, zero: seq<bool>, ghost b: seq<nat>) returns (clen: seq<nat>, bits: nat)
    requires input != [] && freq == FreqsOf(b, input) && Shows(freq, input) && Lending(zero, b, input)
    requires forall x | x in b :: x in input
    ensures |clen| == ALPHABET_SIZE && Kraft(clen, DJW_MAX_CODELEN) && AllCoded(clen, input)
    ensures Built(freq, clen, DJW_MAX_CODELEN) && forall i | 0 <= i < |clen| :: clen[i] <= DJW_MAX_CODELEN
    ensures AllCoded(clen, b) && bits == |CodeString(clen, b)|
  {
    hide CompleteCode, FewSymbols, CodesFor, WithSecond, Kraft, Overflows, Cost, CodeString, Built;
    ShownSome(input, freq);
    CallersFit(2);
    clen, bits := BuildPrefix(freq, DJW_MAX_CODELEN);
    LengthsFit(freq, clen, DJW_MAX_CODELEN);
    ShownCoded(input, freq, clen);
    PartCoded(clen, input, b);
    CostFilled(b, input, zero, clen, ALPHABET_SIZE);
    CostIsSize(b, clen);
    for c := 0 to ALPHABET_SIZE
      invariant bits + ZeroCost(clen, zero, c) == Cost(freq, clen, ALPHABET_SIZE)
    {
      ZeroGrows(clen, zero, c + 1, ALPHABET_SIZE);
      if zero[c] { bits := bits - clen[c]; }
    }
  }

  lemma {:induction false} ZeroGrows(clen: seq<nat>, zero: seq<bool>, m: nat, n: nat)
    requires m <= n <= |clen| == |zero|
    ensures ZeroCost(clen, zero, m) <= ZeroCost(clen, zero, n)
  {
    if m < n { ZeroGrows(clen, zero, m, n - 1); }
  }

  lemma ShownSome(input: seq<byte>, freq: seq<nat>)
    requires input != [] && Shows(freq, input)
    ensures freq != [] && exists i :: 0 <= i < |freq| && freq[i] > 0
  {
    assert input[0] in input && freq[input[0]] > 0;
  }

  lemma ShownCoded(input: seq<byte>, freq: seq<nat>, clen: seq<nat>)
    requires Shows(freq, input) && CompleteCode(freq, clen, DJW_MAX_CODELEN)
    ensures AllCoded(clen, input) && Kraft(clen, DJW_MAX_CODELEN)
  {
    forall k | 0 <= k < |input| ensures clen[input[k]] > 0 {
      assert input[k] in input;
    }
  }

  lemma PartCoded(clen: seq<nat>, input: seq<nat>, b: seq<nat>)
    requires AllCoded(clen, input) && forall x | x in b :: x in input
    ensures AllCoded(clen, b)
  {
    forall k | 0 <= k < |b| ensures b[k] < |clen| && clen[b[k]] > 0 {
      assert b[k] in b;
    }
  }

  // The bits of all sectors.

  lemma {:induction false} StringConcat(clen: seq<nat>, s: seq<nat>, t: seq<nat>)
    requires AllCoded(clen, s) && AllCoded(clen, t)
    ensures AllCoded(clen, s + t) && |CodeString(clen, s + t)| == |CodeString(clen, s)| + |CodeString(clen, t)|
  {
    if s == [] {
      assert s + t == t;
    } else {
      assert (s + t)[1..] == s[1..] + t;
      StringConcat(clen, s[1..], t);
    }
  }

  /** The bits that the bytes of the first `k` groups take. */
  ghost function GroupSizes(tables: seq<seq<nat>>, sel: seq<nat>, size: nat, input: seq<nat>, k: nat): nat
    requires 0 < size && |sel| == Sectors(|input|, size) && k <= |tables|
    requires forall g | 0 <= g < |tables| :: AllCoded(tables[g], input)
  {
    if k == 0 then 0
    else
      var b := GroupBytes(input, sel, size, k - 1);
      PartCoded(tables[k - 1], input, b);
      GroupSizes(tables, sel, size, input, k - 1) + |CodeString(tables[k - 1], b)|
  }

  lemma {:induction false} SizesStep(tables: seq<seq<nat>>, sel: seq<nat>, size: nat, input: seq<nat>, k: nat)
    requires 0 < size && |sel| == Sectors(|input|, size) && k <= |tables| && input != [] && Chooses(sel, |tables|)
    requires forall g | 0 <= g < |tables| :: AllCoded(tables[g], input)
    ensures var n := Min(size, |input|);
      && |sel[1..]| == Sectors(|input[n..]|, size)
      && (forall g | 0 <= g < |tables| :: AllCoded(tables[g], input[..n]) && AllCoded(tables[g], input[n..]))
      && GroupSizes(tables, sel, size, input, k)
         == GroupSizes(tables, sel[1..], size, input[n..], k) + if sel[0] < k then |CodeString(tables[sel[0]], input[..n])| else 0
  {
    hide CodeString;
    var n := Min(size, |input|);
    CodedParts(tables, input, n);
    if k > 0 {
      SizesStep(tables, sel, size, input, k - 1);
      var more := GroupBytes(input[n..], sel[1..], size, k - 1);
      PartCoded(tables[k - 1], input[n..], more);
      if sel[0] == k - 1 { StringConcat(tables[k - 1], input[..n], more); }
    }
  }

  /** Group by group the sectors take as many bits as one after the other. */
  lemma {:induction false} SectorsSize(tables: seq<seq<nat>>, sel: seq<nat>, size: nat, input: seq<nat>)
    requires 0 < size && |sel| == Sectors(|input|, size) && Chooses(sel, |tables|)
    requires forall g | 0 <= g < |tables| :: AllCoded(tables[g], input)
    ensures |SectorBits(tables, sel, size, input)| == GroupSizes(tables, sel, size, input, |tables|)
    decreases |input|
  {
    hide CodeString, GroupSizes;
    if input == [] {
      NoSizes(tables, sel, size, |tables|);
    } else {
      var n := Min(size, |input|);
      CodedParts(tables, input, n);
      SizesStep(tables, sel, size, input, |tables|);
      SectorsSize(tables, sel[1..], size, input[n..]);
    }
  }

  lemma {:induction false} NoSizes(tables: seq<seq<nat>>, sel: seq<nat>, size: nat, k: nat)
    requires 0 < size && sel == [] && k <= |tables| && forall g | 0 <= g < |tables| :: AllCoded(tables[g], [])
    ensures GroupSizes(tables, sel, size, [], k) == 0
  {
    if k > 0 { NoSizes(tables, sel, size, k - 1); }
  }

  // Few bytes.

  lemma {:induction false} SumUpdate(f: seq<nat>, s: nat, v: nat, n: nat)
    requires s < |f| && n <= |f|
    ensures Sum(f[s := v], n) == if s < n then Sum(f, n) - f[s] + v else Sum(f, n)
  {
    if n > 0 { SumUpdate(f, s, v, n - 1); }
  }

  lemma {:induction false} SumOccurrences(s: seq<nat>, n: nat)
    ensures Sum(Frequencies(s, n), n) <= |s|
  {
    if s == [] {
      SumNothing(Frequencies(s, n), n);
    } else {
      var t, c := s[..|s| - 1], s[|s| - 1];
      SumOccurrences(t, n);
      if c < n {
        assert Frequencies(s, n) == Frequencies(t, n)[c := Occurrences(t, c) + 1];
        SumUpdate(Frequencies(t, n), c, Occurrences(t, c) + 1, n);
      } else {
        assert Frequencies(s, n) == Frequencies(t, n);
      }
    }
  }

  lemma {:induction false} SumNothing(f: seq<nat>, n: nat)
    requires n <= |f| && forall i | 0 <= i < n :: f[i] == 0
    ensures Sum(f, n) == 0
  {
    if n > 0 { SumNothing(f, n - 1); }
  }

  lemma {:induction false} SumNear(f: seq<nat>, g: seq<nat>, n: nat)
    requires n <= |f| == |g| && forall i | 0 <= i < n :: f[i] <= g[i] + 1
    ensures Sum(f, n) <= Sum(g, n) + n
  {
    if n > 0 { SumNear(f, g, n - 1); }
  }

  /** Weight of a group: its bytes, and at most one for each symbol. */
  lemma GroupWeight(input: seq<nat>, sel: seq<nat>, size: nat, g: nat)
    requires 0 < size && |sel| == Sectors(|input|, size)
    ensures Sum(GroupFreq(input, sel, size, g), ALPHABET_SIZE) <= |GroupBytes(input, sel, size, g)| + ALPHABET_SIZE
  {
    hide Occurrences, GroupBytes, Sum;
    var b := GroupBytes(input, sel, size, g);
    SumOccurrences(b, ALPHABET_SIZE);
    SumNear(GroupFreq(input, sel, size, g), Frequencies(b, ALPHABET_SIZE), ALPHABET_SIZE);
  }

  lemma {:induction false} LeavesTotal(f: seq<nat>, n: nat)
    requires n <= |f|
    ensures Total(Leaves(f, 0, n)) == Sum(f, n)
  {
    hide Total;
    if n == 0 {
      NoTotal();
    } else {
      LeavesTotal(f, n - 1);
      TotalMore(Leaves(f, 0, n - 1), Key(f[n - 1], 0));
    }
  }

  lemma NoTotal()
    ensures Total(multiset{}) == 0
  {
  }

  /** Frequencies that are too light never grow too high a tree. */
  lemma LightFits(freq: seq<nat>, max: nat)
    requires freq != [] && Sum(WithSecond(freq), |freq|) < Fib(max + 3)
    ensures !Overflows(freq, max)
  {
    hide Fib, Sum, Height, Leaves, WithSecond;
    var f := WithSecond(freq);
    SecondSize(freq);
    var m := Leaves(f, 0, |f|);
    LeavesTotal(f, |f|);
    LeavesHeavy(f, 0, |f|);
    if |m| > 0 {
      HeightHeavy(m, 1);
      if Height(m) > max { FibGrows(max + 3, Height(m) + 2); }
    } else {
      NoHeight(m);
    }
  }

  lemma NoHeight(m: multiset<Key>)
    requires |m| == 0
    ensures Height(m) == 0
  {
  }

  /** A second symbol for show weighs one. */
  lemma SecondWeight(freq: seq<nat>)
    requires freq != []
    ensures Sum(WithSecond(freq), |freq|) <= Sum(freq, |freq|) + 1
  {
    SumUpdate(freq, if freq[0] != 0 then |freq| - 1 else 0, 1, |freq|);
  }

  /** A group with few bytes is not rescaled. */
  lemma FewBytes(input: seq<nat>, sel: seq<nat>, size: nat, g: nat)
    requires 0 < size && |sel| == Sectors(|input|, size)
    requires |GroupBytes(input, sel, size, g)| + ALPHABET_SIZE + 1 < Fib(DJW_MAX_CODELEN + 3)
    ensures !Overflows(GroupFreq(input, sel, size, g), DJW_MAX_CODELEN)
  {
    hide Fib, Sum, WithSecond, GroupBytes, Overflows;
    GroupWeight(input, sel, size, g);
    SecondWeight(GroupFreq(input, sel, size, g));
    LightFits(GroupFreq(input, sel, size, g), DJW_MAX_CODELEN);
  }
}
