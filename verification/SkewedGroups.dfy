/** An input and groups for it that do not agree: in one group the frequencies
    are so far apart that a code grows too long, in the other they are not. */
module SkewedGroups {
  import opened Bytes
  import opened Canonical
  import opened CodeTree
  import opened TreeHeight
  import opened PrefixLengths
  import opened MoveToFront
  import opened Huffman
  import opened HuffmanGroups
  import opened GroupFreqs
  import opened GroupsCodec
  import opened GroupSearch

  // How high the tree grows when each frequency is more than all that come long
  // before it.

  /** The first `k` symbols occur, and each more often than all together that come
      before the one before it. */
  ghost predicate Chain(f: seq<nat>, k: nat) {
    && 2 <= k <= |f| && (forall i | 0 <= i < k :: f[i] > 0) && (forall i | k <= i < |f| :: f[i] == 0)
    && (forall i | 0 <= i < k - 1 :: f[i] <= f[i + 1])
    && forall i | 0 < i < k - 1 :: Sum(f, i) < f[i + 1]
  }

  lemma {:induction false} PeelLeaf(f: seq<nat>, lo: nat, hi: nat)
    requires lo < hi <= |f| && f[lo] > 0
    ensures Leaves(f, lo, hi) == multiset{Key(f[lo], 0)} + Leaves(f, lo + 1, hi)
  {
    if lo + 1 < hi { PeelLeaf(f, lo, hi - 1); }
  }

  lemma {:induction false} NoLeaves(f: seq<nat>, lo: nat, k: nat, hi: nat)
    requires lo <= k <= hi <= |f| && forall i | k <= i < hi :: f[i] == 0
    ensures Leaves(f, lo, hi) == Leaves(f, lo, k)
  {
    if k < hi { NoLeaves(f, lo, k, hi - 1); }
  }

  lemma {:induction false} Rising(f: seq<nat>, k: nat, i: nat, j: nat)
    requires Chain(f, k) && i <= j < k
    ensures f[i] <= f[j]
  {
    if i < j { Rising(f, k, i, j - 1); }
  }

  lemma {:induction false} LeavesAre(f: seq<nat>, k: nat, j: nat, hi: nat)
    requires Chain(f, k) && j <= hi <= k
    ensures forall x :: x in Leaves(f, j, hi) ==> x.depth == 0 && exists i :: j <= i < hi && f[i] == x.freq
  {
    if j < hi { LeavesAre(f, k, j, hi - 1); }
  }

  ghost predicate NoneBelow(a: Key, l: multiset<Key>) {
    forall x :: x in l ==> Leq(a, x)
  }

  /** None of the other symbols is less than the tree over the first `j` or the
      next symbol. */
  lemma ChainNoneBelow(f: seq<nat>, k: nat, j: nat)
    requires Chain(f, k) && 0 < j < k
    ensures NoneBelow(Key(Sum(f, j), j - 1), Leaves(f, j + 1, k)) && NoneBelow(Key(f[j], 0), Leaves(f, j + 1, k))
  {
    hide Leaves, Sum;
    var a, b, l := Key(Sum(f, j), j - 1), Key(f[j], 0), Leaves(f, j + 1, k);
    LeavesAre(f, k, j + 1, k);
    forall x | x in l ensures Leq(a, x) && Leq(b, x) {
      var i: nat :| j + 1 <= i < k && f[i] == x.freq;
      Rising(f, k, j, i);
      Rising(f, k, j + 1, i);
    }
  }

  /** Joining a least two, whichever comes first. */
  lemma EitherFirst(a: Key, b: Key, l: multiset<Key>)
    requires NoneBelow(a, l) && NoneBelow(b, l)
    ensures Height(multiset{a} + (multiset{b} + l)) == Height(multiset{Pair(a, b)} + l)
  {
    hide Height, Leq, IsLeast;
    TwoTaken(a, b, l);
    TwoTaken(b, a, l);
    Exchange(a, b, l);
    Swapped(l, Pair(a, b));
    if Leq(a, b) {
      LeastTwo(a, b, l);
      HeightStep(multiset{a} + (multiset{b} + l), a, b);
    } else {
      LeqTotal(a, b);
      LeastTwo(b, a, l);
      HeightStep(multiset{b} + (multiset{a} + l), b, a);
    }
  }

  lemma LeqTotal(a: Key, b: Key)
    ensures (Leq(a, b) || Leq(b, a)) && (Leq(a, b) && Leq(b, a) ==> a == b) && Pair(a, b) == Pair(b, a)
  {
  }

  lemma Exchange(a: Key, b: Key, l: multiset<Key>)
    ensures multiset{a} + (multiset{b} + l) == multiset{b} + (multiset{a} + l)
  {
  }

  lemma LeastTwo(a: Key, b: Key, l: multiset<Key>)
    requires Leq(a, b) && NoneBelow(a, l) && NoneBelow(b, l)
    ensures IsLeast(multiset{a} + (multiset{b} + l), a) && IsLeast(multiset{b} + l, b)
  {
    assert Leq(a, a) && Leq(b, b);
  }

  lemma {:induction false} ChainHeight(f: seq<nat>, k: nat, j: nat)
    requires Chain(f, k) && 0 < j <= k
    ensures Height(multiset{Key(Sum(f, j), j - 1)} + Leaves(f, j, k)) == k - 1
    decreases k - j
  {
    hide Height;
    var a := Key(Sum(f, j), j - 1);
    if j == k {
      assert multiset{a} + Leaves(f, j, k) == multiset{a};
      HeightOne(a);
    } else {
      PeelLeaf(f, j, k);
      ChainNoneBelow(f, k, j);
      EitherFirst(a, Key(f[j], 0), Leaves(f, j + 1, k));
      ChainHeight(f, k, j + 1);
    }
  }

  /** Every symbol but the first adds a level. */
  lemma ChainIsHigh(f: seq<nat>, k: nat)
    requires Chain(f, k)
    ensures HeightOf(f) == k - 1
  {
    hide Height;
    NoLeaves(f, 0, k, |f|);
    PeelLeaf(f, 0, k);
    assert Sum(f, 1) == f[0];
    ChainHeight(f, k, 1);
  }

  // Such an input.

  const LEVELS := 22

  function Times(x: byte, n: nat): (r: seq<byte>)
    ensures |r| == n && forall i | 0 <= i < n :: r[i] == x
  {
    if n == 0 then [] else Times(x, n - 1) + [x]
  }

  /** Symbol `i` as often as the Fibonacci number `i + 1`. */
  function Skewed(k: nat): (r: seq<byte>)
    requires k <= ALPHABET_SIZE
  {
    if k == 0 then [] else Skewed(k - 1) + Times(k - 1, Fib(k))
  }

  lemma {:induction false} OccurrencesSame(n: nat, x: byte, c: nat)
    ensures Occurrences(Times(x, n), c) == if c == x then n else 0
  {
    hide Occurrences;
    if n == 0 {
      NoOccurrences();
    } else {
      OccurrencesSame(n - 1, x, c);
      OccurrencesSnoc(Times(x, n - 1), x);
    }
  }

  lemma {:induction false} SkewedCounts(k: nat, c: nat)
    requires k <= ALPHABET_SIZE
    ensures Occurrences(Skewed(k), c) == if c < k then Fib(c + 1) else 0
  {
    hide Occurrences, Fib;
    if k == 0 {
      NoOccurrences();
    } else {
      SkewedCounts(k - 1, c);
      OccurrencesSame(Fib(k), k - 1, c);
      OccurrencesConcat(Skewed(k - 1), Times(k - 1, Fib(k)), c);
    }
  }

  ghost predicate FibUpTo(f: seq<nat>, k: nat) {
    k <= |f| && forall i | 0 <= i < |f| :: f[i] == if i < k then Fib(i + 1) else 0
  }

  lemma {:induction false} FibSum(f: seq<nat>, k: nat, i: nat)
    requires FibUpTo(f, k) && i <= k
    ensures Sum(f, i) + 1 == Fib(i + 2)
  {
    if i > 0 { FibSum(f, k, i - 1); }
  }

  lemma {:induction false} FibPositive(n: nat)
    requires 0 < n
    ensures Fib(n) > 0
  {
    if n > 1 { FibPositive(n - 1); }
  }

  lemma FibChain(f: seq<nat>, k: nat)
    requires FibUpTo(f, k) && 2 <= k
    ensures Chain(f, k)
  {
    hide Fib;
    forall i | 0 <= i < k ensures f[i] > 0 { FibPositive(i + 1); }
    forall i | 0 <= i < k - 1 ensures f[i] <= f[i + 1] { FibGrows(i + 1, i + 2); }
    forall i | 0 < i < k - 1 ensures Sum(f, i) < f[i + 1] { FibSum(f, k, i); }
  }

  /** Those frequencies overflow, unless there is room for a code bit for every
      symbol but one. */
  lemma SkewedOverflows(f: seq<nat>, k: nat, max: nat)
    requires FibUpTo(f, k) && 2 <= k
    ensures Overflows(f, max) <==> max < k - 1
  {
    hide Fib, HeightOf, Positives;
    FibChain(f, k);
    ChainIsHigh(f, k);
    OnePositive(f, 0, |f|);
    assert f[1] > 0;
    SecondIs(f);
  }

  /** A sector of one symbol, and then all symbols of that distribution. */
  function SkewedInput(): seq<byte> {
    [0, 0, 0, 0, 0] + Skewed(LEVELS)
  }

  /** Two groups: one for the first sector, the other for all others. */
  function SkewedPlan(): Plan {
    Plan(2, DJW_SECTORSZ_MULT, [1] + seq(HuffmanGroups.Sectors(|Skewed(LEVELS)|, DJW_SECTORSZ_MULT), i => 0))
  }

  lemma {:induction false} OneGroup(input: seq<nat>, sel: seq<nat>, size: nat, g: nat, h: nat)
    requires 0 < size && |sel| == HuffmanGroups.Sectors(|input|, size) && forall i | 0 <= i < |sel| :: sel[i] == g
    ensures GroupBytes(input, sel, size, h) == if g == h then input else []
    decreases |input|
  {
    if input != [] {
      var n := Min(size, |input|);
      assert input == input[..n] + input[n..];
      OneGroup(input[n..], sel[1..], size, g, h);
    }
  }

  /** Which bytes are in which group. */
  ghost predicate Parted(x: seq<byte>, sel: seq<nat>) {
    && |sel| == HuffmanGroups.Sectors(|x|, DJW_SECTORSZ_MULT)
    && GroupBytes(x, sel, DJW_SECTORSZ_MULT, 0) == Skewed(LEVELS)
    && GroupBytes(x, sel, DJW_SECTORSZ_MULT, 1) == [0, 0, 0, 0, 0]
  }

  lemma SkewedParts()
    ensures PlanOk(SkewedPlan(), SkewedInput()) && Parted(SkewedInput(), SkewedPlan().sel)
  {
    hide Skewed;
    var x, y, sel := SkewedInput(), Skewed(LEVELS), SkewedPlan().sel;
    assert x[5..] == y && x[..5] == [0, 0, 0, 0, 0] && |x| == 5 + |y|;
    OneGroup(y, sel[1..], 5, 0, 0);
    OneGroup(y, sel[1..], 5, 0, 1);
  }

  lemma SkewedFreq(x: seq<nat>, y: seq<nat>)
    requires y == Skewed(LEVELS) && (forall c | c in x :: c in y)
    ensures FibUpTo(FreqsOf(y, x), LEVELS)
  {
    hide Occurrences, Fib, Skewed;
    forall c | 0 <= c < ALPHABET_SIZE ensures FreqsOf(y, x)[c] == if c < LEVELS then Fib(c + 1) else 0 {
      SkewedCounts(LEVELS, c);
    }
  }

  /** The groups of that plan are not alike, and whatever codes are made for them,
      their zeros differ. */
  lemma GroupsDiffer()
    ensures PlanOk(SkewedPlan(), SkewedInput()) && !Alike(SkewedPlan(), SkewedInput())
    ensures forall t: Trace | t.Many? && Planned(t, SkewedPlan(), SkewedInput()) :: !Agree(t)
  {
    hide Skewed, Fib, Occurrences, GroupBytes, Overflows, WithSecond, Planned, Agree, FreqsOf, Chain, FibUpTo;
    var x, p := SkewedInput(), SkewedPlan();
    SkewedParts();
    SkewedFirst();
    SkewedSecond();
    forall t: Trace | t.Many? && Planned(t, p, x) ensures !Agree(t) {
      AgreeIff(t, p, x);
    }
  }

  /** The first group is rescaled, and has symbols that do not occur. */
  lemma SkewedFirst()
    ensures PlanOk(SkewedPlan(), SkewedInput())
    ensures var f := PlanFreqs(SkewedPlan(), SkewedInput())[0];
      Overflows(f, DJW_MAX_CODELEN) && |WithSecond(f)| == ALPHABET_SIZE && WithSecond(f)[ALPHABET_SIZE - 1] == 0
  {
    hide Skewed, Fib, Occurrences, GroupBytes, Overflows, FreqsOf, Positives;
    var x, y, p := SkewedInput(), Skewed(LEVELS), SkewedPlan();
    SkewedParts();
    SkewedCounts(LEVELS, 0);
    FibPositive(1);
    OccurrencesIn(y, 0);
    SkewedFreq(x, y);
    var f := FreqsOf(y, x);
    assert PlanFreqs(p, x)[0] == f;
    SkewedOverflows(f, LEVELS, DJW_MAX_CODELEN);
    FibPositive(2);
    OnePositive(f, 0, |f|);
    assert f[1] == Fib(2) && f[ALPHABET_SIZE - 1] == 0;
    SecondIs(f);
  }

  /** The second is not. */
  lemma SkewedSecond()
    ensures PlanOk(SkewedPlan(), SkewedInput())
    ensures !Overflows(PlanFreqs(SkewedPlan(), SkewedInput())[1], DJW_MAX_CODELEN)
  {
    hide Skewed, GroupBytes, Overflows;
    SkewedParts();
    CallersFit(2);
    assert Fib(23) == 28657;
    FewBytes(SkewedInput(), SkewedPlan().sel, DJW_SECTORSZ_MULT, 1);
  }

  // The plan is one that a round of the search comes to.

  /** Lengths `a` for symbol 0 and `b` for all others. */
  function Two(a: nat, b: nat): (clen: seq<nat>)
    ensures |clen| == ALPHABET_SIZE && clen[0] == a && forall c | 0 < c < ALPHABET_SIZE :: clen[c] == b
  {
    seq(ALPHABET_SIZE, c => if c == 0 then a else b)
  }

  lemma {:induction false} CostWithout(a: nat, b: nat, s: seq<byte>)
    requires forall i | 0 <= i < |s| :: s[i] != 0
    ensures SectorCost(Two(a, b), s) == b * |s|
  {
    if s != [] { CostWithout(a, b, s[..|s| - 1]); }
  }

  lemma {:induction false} CostWith(a: nat, b: nat, s: seq<byte>)
    requires s != [] && s[0] == 0 && forall i | 0 < i < |s| :: s[i] != 0
    ensures SectorCost(Two(a, b), s) == a + b * (|s| - 1)
  {
    if |s| == 1 {
      assert s[..0] == [];
    } else {
      CostWith(a, b, s[..|s| - 1]);
    }
  }

  lemma {:induction false} CostOnly(a: nat, b: nat, s: seq<byte>)
    requires forall i | 0 <= i < |s| :: s[i] == 0
    ensures SectorCost(Two(a, b), s) == a * |s|
  {
    if s != [] { CostOnly(a, b, s[..|s| - 1]); }
  }

  function SkewedTables(): seq<seq<nat>> {
    [Two(20, 1), Two(1, 20)]
  }

  /** Sectors without symbol 0, or with it once at the start, go to the first
      group. */
  lemma {:induction false} FirstGroup(s: seq<byte>)
    requires s == [] || 1 < |s| || s[0] != 0
    requires forall i | 0 < i < |s| :: s[i] != 0
    ensures Selected(SkewedTables(), s, DJW_SECTORSZ_MULT)
      == seq(HuffmanGroups.Sectors(|s|, DJW_SECTORSZ_MULT), i => 0)
    decreases |s|
  {
    hide SectorCost;
    if s != [] {
      var n := Min(DJW_SECTORSZ_MULT, |s|);
      var t := s[..n];
      if s[0] == 0 {
        CostWith(20, 1, t);
        CostWith(1, 20, t);
      } else {
        CostWithout(20, 1, t);
        CostWithout(1, 20, t);
      }
      assert Best(SkewedTables(), t, 2) == 0;
      FirstGroup(s[n..]);
    }
  }

  lemma {:induction false} SkewedStarts(k: nat)
    requires 2 <= k <= ALPHABET_SIZE
    ensures 1 < |Skewed(k)| && Skewed(k)[0] == 0 && forall i | 0 < i < |Skewed(k)| :: Skewed(k)[i] != 0
  {
    hide Fib;
    if k == 2 {
      FibOne();
      assert Skewed(0) == [] && Skewed(1) == [0] && Skewed(2) == [0] + Times(1, 1);
    } else {
      SkewedStarts(k - 1);
    }
  }

  lemma FibOne()
    ensures Fib(1) == 1 == Fib(2)
  {
  }

  /** With these tables a round selects just those groups. */
  lemma SkewedFound()
    ensures LengthTables(SkewedTables()) && |SkewedTables()| == SkewedPlan().groups
    ensures SkewedPlan().size == DJW_SECTORSZ_MULT
    ensures Selected(SkewedTables(), SkewedInput(), DJW_SECTORSZ_MULT) == SkewedPlan().sel
  {
    hide Skewed, SectorCost, HuffmanGroups.Sectors;
    var x, y, tables := SkewedInput(), Skewed(LEVELS), SkewedTables();
    assert x[..5] == [0, 0, 0, 0, 0] && x[5..] == y;
    CostOnly(20, 1, x[..5]);
    CostOnly(1, 20, x[..5]);
    SkewedStarts(LEVELS);
    FirstGroup(y);
    assert Best(tables, x[..5], 2) == 1;
    assert Selected(tables, x, DJW_SECTORSZ_MULT) == SkewedPlan().sel;
    assert LengthTables(tables);
  }
}
