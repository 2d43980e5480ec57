/** Length-limited prefix code lengths from symbol frequencies. */
module PrefixLengths {
  import opened Bytes
  import opened BitIO
  import opened CodeHeap
  import opened CodeTree
  import opened Canonical
  import opened TreeHeight
  import opened LeastCost

  function Positives(f: seq<nat>, i: nat): (n: nat)
    requires i <= |f|
    ensures n <= i
  {
    if i == 0 then 0 else Positives(f, i - 1) + if f[i - 1] > 0 then 1 else 0
  }

  function Sum(f: seq<nat>, i: nat): nat
    requires i <= |f|
  {
    if i == 0 then 0 else Sum(f, i - 1) + f[i - 1]
  }

  /** The bits that symbols of these frequencies take: the sum of length times
      frequency. */
  function Cost(freq: seq<nat>, clen: seq<nat>, i: nat): nat
    requires i <= |freq| == |clen|
  {
    if i == 0 then 0 else Cost(freq, clen, i - 1) + clen[i - 1] * freq[i - 1]
  }

  /** A complete code: every symbol that occurs has a code, no code is longer
      than `max`, and no word of bits is wasted (Kraft, with equality). */
  ghost predicate CompleteCode(freq: seq<nat>, clen: seq<nat>, max: nat) {
    && |clen| == |freq|
    && (forall i | 0 <= i < |clen| :: clen[i] <= max && (freq[i] > 0 ==> clen[i] > 0))
    && Share(clen, max) == Pow2(max)
  }

  /** Too few symbols for a code longer than `max` when all weights are at most
      two: such a code takes a Fibonacci number of weights. */
  predicate FewSymbols(n: nat, max: nat) {
    2 <= n && 2 * n < Fib(max + 3)
  }

  /** Every caller has few enough symbols: 256 with codes of up to 20 bits, the
      22 code lengths with up to 15, and up to 9 group selectors with up to 7. */
  lemma CallersFit(groups: nat)
    requires 2 <= groups <= 8
    ensures FewSymbols(256, 20) && FewSymbols(22, 15) && FewSymbols(groups + 1, 7)
  {
    assert Fib(10) == 55;
    assert Fib(14) == 377;
    assert Fib(18) == 2584;
    assert Fib(20) == 6765;
    assert Fib(23) == 28657;
  }

  ghost predicate FreqsAre(es: seq<Ent>, f: seq<nat>) {
    |f| < |es| && forall i | 0 <= i < |f| :: es[i + 1].freq == f[i]
  }

  /** The first `i` symbols are leaves of their own. */
  ghost predicate Fresh(es: seq<Ent>, i: nat) {
    i < |es| && forall e | 0 < e <= i :: es[e].depth == 0 == es[e].parent
  }

  function Active(f: seq<nat>, i: nat): (act: multiset<nat>)
    requires i <= |f|
    ensures forall e :: act[e] == if 0 < e <= i && f[e - 1] > 0 then 1 else 0
  {
    if i == 0 then multiset{} else Active(f, i - 1) + if f[i - 1] > 0 then multiset{i} else multiset{}
  }

  function InitRoots(f: seq<nat>): (r: seq<nat>)
    ensures |r| == |f| && forall i | 0 <= i < |r| :: r[i] == if f[i] > 0 then i + 1 else 0
  {
    seq(|f|, i requires 0 <= i < |f| => if f[i] > 0 then i + 1 else 0)
  }

  function InitLens(f: seq<nat>): (r: seq<nat>)
    ensures |r| == |f| && forall i | 0 <= i < |r| :: r[i] == 0
  {
    seq(|f|, i => 0)
  }

  lemma {:induction false} InitWeight(f: seq<nat>, e: nat, i: nat)
    requires 0 < e && i <= |f|
    ensures WeightOf(f, InitRoots(f), e, i) == if e <= i then f[e - 1] else 0
  {
    if i > 0 { InitWeight(f, e, i - 1); }
  }

  lemma {:induction false} InitShare(f: seq<nat>, e: nat, max: nat, i: nat)
    requires 0 < e && i <= |f|
    ensures ShareOf(InitLens(f), InitRoots(f), e, max, i) == if e <= i && f[e - 1] > 0 then Pow2(max) else 0
  {
    if i > 0 { InitShare(f, e, max, i - 1); }
  }

  lemma InitSubtree(es: seq<Ent>, f: seq<nat>, e: nat)
    requires FreqsAre(es, f) && Fresh(es, |f|) && 0 < e <= |f| && f[e - 1] > 0
    ensures Subtree(es, |f| + 1, f, InitRoots(f), InitLens(f), 1, e)
  {
    hide WeightOf, ShareOf, Pow2;
    InitWeight(f, e, |f|);
    forall max: nat ensures ShareOf(InitLens(f), InitRoots(f), e, max, |f|) == Pow2(max) {
      InitShare(f, e, max, |f|);
    }
    assert es[e - 1 + 1].freq == f[e - 1];
    assert InitRoots(f)[e - 1] == e && InitLens(f)[e - 1] == 0;
    assert Fib(2) == 1;
  }

  lemma InitLeaf(es: seq<Ent>, f: seq<nat>, i: nat)
    requires FreqsAre(es, f) && Fresh(es, |f|) && i < |f|
    ensures Leaf(es, |f| + 1, Active(f, |f|), f, InitRoots(f), InitLens(f), i)
  {
    hide Active;
    ActiveAt(f, i + 1);
    assert es[i + 1].freq == f[i];
  }

  /** The forest to start with: every symbol that occurs. */
  lemma InitForest(es: seq<Ent>, f: seq<nat>)
    requires FreqsAre(es, f) && Fresh(es, |f|)
    ensures Forest(es, |f| + 1, Active(f, |f|), f, InitRoots(f), InitLens(f), 1)
  {
    hide Active, Subtree, Leaf, Fresh;
    var n, act, root, len := |f| + 1, Active(f, |f|), InitRoots(f), InitLens(f);
    forall e | e in act ensures act[e] == 1 && Subtree(es, n, f, root, len, 1, e) {
      ActiveAt(f, e);
      InitSubtree(es, f, e);
    }
    forall i: nat | i < |f| ensures Leaf(es, n, act, f, root, len, i) {
      InitLeaf(es, f, i);
    }
  }

  lemma ActiveAt(f: seq<nat>, e: nat)
    ensures Active(f, |f|)[e] == if 0 < e <= |f| && f[e - 1] > 0 then 1 else 0
  {
  }

  /** The heap only looks at frequencies and depths of what it holds. */
  lemma HeapFrame(es: seq<Ent>, es': seq<Ent>, h: seq<nat>, last: nat, n: nat)
    requires HeapOk(es, h, last) && |es'| == |es| && 0 < n <= |es|
    requires forall e | 0 <= e < n :: es'[e].freq == es[e].freq && es'[e].depth == es[e].depth
    requires forall e :: e in Items(h, last) ==> e < n
    ensures HeapOk(es', h, last)
  {
    forall i: nat | 0 < i <= last ensures h[i] < n && InHeap(es, h, i) { ItemIn(h, last, i); }
    forall i: nat | 0 < i <= last ensures Ordered(es', h, i) {
      assert Ordered(es, h, i) && h[i / 2] < n;
    }
    forall i: nat | 0 < i <= last ensures InHeap(es', h, i) { assert InHeap(es, h, i); }
  }

  /** The initial heap. */
  method InitialHeap(ents: array<Ent>, heap: array<nat>, ghost f: seq<nat>, asize: nat) returns (last: nat)
    requires |f| == asize < heap.Length && asize < ents.Length && FreqsAre(ents[..], f)
    modifies ents, heap
    ensures FreqsAre(ents[..], f) && Fresh(ents[..], asize)
    ensures last == Positives(f, asize) && HeapOk(ents[..], heap[..], last) && Items(heap[..], last) == Active(f, asize)
  {
    hide HeapOk, Items, Active, Positives;
    last := 0;
    heap[0] := 0;
    ents[0] := ents[0].(depth := 0, freq := 0);
    StartHeap(ents[..], heap[..], f);
    for i := 0 to asize
      invariant FreqsAre(ents[..], f) && Fresh(ents[..], i) && last <= i
      invariant last == Positives(f, i) && HeapOk(ents[..], heap[..], last) && Items(heap[..], last) == Active(f, i)
    {
      ghost var es := ents[..];
      ents[i + 1] := ents[i + 1].(depth := 0, parent := 0);
      NextSymbol(es, ents[..], heap[..], last, f, i);
      if ents[i + 1].freq != 0 {
        last := last + 1;
        HeapInsert(heap, ents, last, i + 1);
      }
    }
  }

  lemma StartHeap(es: seq<Ent>, h: seq<nat>, f: seq<nat>)
    requires Sentinel(es, h)
    ensures HeapOk(es, h, 0) && Items(h, 0) == Active(f, 0) && Positives(f, 0) == 0
  {
  }

  lemma NextSymbol(es: seq<Ent>, es': seq<Ent>, h: seq<nat>, last: nat, f: seq<nat>, i: nat)
    requires i < |f| < |es| && es' == es[i + 1 := es[i + 1].(depth := 0, parent := 0)] && last < |h|
    requires HeapOk(es, h, last) && Items(h, last) == Active(f, i)
    ensures HeapOk(es', h, last)
    ensures Positives(f, i + 1) == Positives(f, i) + if f[i] > 0 then 1 else 0
    ensures Active(f, i + 1) == if f[i] > 0 then Active(f, i) + multiset{i + 1} else Active(f, i)
  {
    HeapFrame(es, es', h, last, i + 1);
  }

  /** The state of the loop that joins subtrees. */
  ghost predicate Building(es: seq<Ent>, h: seq<nat>, last: nat, n: nat, f: seq<nat>, root: seq<nat>, len: seq<nat>, least: nat) {
    && last < |h| && HeapOk(es, h, last) && Forest(es, n, Items(h, last), f, root, len, least)
    && 0 < last && |f| < n && n + last == |f| + 1 + Positives(f, |f|) && |es| == 2 * |f|
    && (last < Positives(f, |f|) ==> n - 1 in Items(h, last) && |f| < n - 1)
  }

  lemma StartBuilding(es: seq<Ent>, h: seq<nat>, last: nat, f: seq<nat>)
    requires FreqsAre(es, f) && Fresh(es, |f|) && 0 < last == Positives(f, |f|) && last < |h|
    requires HeapOk(es, h, last) && Items(h, last) == Active(f, |f|) && |es| == 2 * |f|
    ensures Building(es, h, last, |f| + 1, f, InitRoots(f), InitLens(f), 1)
  {
    hide HeapOk, Forest, Items, Active;
    InitForest(es, f);
  }

  lemma BuildingIs(es: seq<Ent>, h: seq<nat>, last: nat, n: nat, f: seq<nat>, root: seq<nat>, len: seq<nat>, least: nat)
    requires Building(es, h, last, n, f, root, len, least)
    ensures 0 < last < |h| && |root| == |len| && HeapOk(es, h, last) && (1 < last ==> n < |es|)
    ensures forall e :: e in Items(h, last) ==> 0 < e < n
  {
    hide HeapOk, Subtree, Leaf;
    ActiveBelow(es, n, Items(h, last), f, root, len, least);
  }

  /** `a` and then `b` were least and have been taken out of the heap. */
  ghost predicate Taken(es: seq<Ent>, h0: seq<nat>, h: seq<nat>, last: nat, a: nat, b: nat) {
    && 1 < last < |h| == |h0| && a < |es| && b < |es|
    && a in Items(h0, last) && b in Items(h0, last) - multiset{a}
    && (forall x :: x in Items(h0, last) - multiset{a} ==> x < |es| && !Less(es[x], es[b]))
    && !Less(es[b], es[a])
    && HeapOk(es, h, last - 2) && Items(h, last - 2) == Items(h0, last) - multiset{a} - multiset{b}
  }

  lemma BeforeInsert(es: seq<Ent>, h0: seq<nat>, h: seq<nat>, last: nat, n: nat, f: seq<nat>, root: seq<nat>, len: seq<nat>,
                     least: nat, a: nat, b: nat)
    requires Building(es, h0, last, n, f, root, len, least) && Taken(es, h0, h, last, a, b)
    ensures a < n < |es| && b < n && HeapOk(Joined(es, n, a, b), h, last - 2)
  {
    hide HeapOk, Forest, Items;
    BuildingIs(es, h0, last, n, f, root, len, least);
    HeapFrame(es, Joined(es, n, a, b), h, last - 2, n);
  }

  /** The two are joined, and the result is in the heap. */
  lemma AfterInsert(es: seq<Ent>, h0: seq<nat>, h: seq<nat>, h': seq<nat>, last: nat, n: nat,
                    f: seq<nat>, root: seq<nat>, len: seq<nat>, least: nat, a: nat, b: nat)
    requires Building(es, h0, last, n, f, root, len, least) && Taken(es, h0, h, last, a, b)
    requires a < n < |es| && b < n && |root| == |len| && last - 1 < |h'|
    requires HeapOk(Joined(es, n, a, b), h', last - 1)
    requires Items(h', last - 1) == Items(h, last - 2) + multiset{n}
    ensures Building(Joined(es, n, a, b), h', last - 1, n + 1, f, Roots(root, a, b, n), Lens(root, len, a, b), es[b].freq)
  {
    hide HeapOk, Forest, Items, Roots, Lens, Joined;
    BuildingIs(es, h0, last, n, f, root, len, least);
    JoinForest(es, n, Items(h0, last), f, root, len, least, a, b);
    assert Items(h', last - 1) == Items(h0, last) - multiset{a, b} + multiset{n};
    JoinedSize(es, n, a, b);
  }

  lemma JoinedSize(es: seq<Ent>, n: nat, a: nat, b: nat)
    requires a < n < |es| && b < n
    ensures |Joined(es, n, a, b)| == |es|
  {
  }

  /** The tree that the heap leads to has height `k`, and the joins to come cost `j`. */
  ghost predicate Leads(es: seq<Ent>, h: seq<nat>, last: nat, k: nat, j: nat) {
    && last < |h| && Entries(es, h[1..last + 1])
    && Height(Keys(es, h[1..last + 1])) == k && Joins(Keys(es, h[1..last + 1])) == j
  }

  /** The entries of the symbols that occur, in order. */
  ghost function Listed(f: seq<nat>, i: nat): seq<nat>
    requires i <= |f|
  {
    if i == 0 then [] else if f[i - 1] > 0 then Listed(f, i - 1) + [i] else Listed(f, i - 1)
  }

  lemma {:induction false} ListedIs(es: seq<Ent>, f: seq<nat>, i: nat)
    requires FreqsAre(es, f) && Fresh(es, |f|) && i <= |f|
    ensures multiset(Listed(f, i)) == Active(f, i)
    ensures Entries(es, Listed(f, i)) && Keys(es, Listed(f, i)) == Leaves(f, 0, i)
  {
    hide Keys;
    if i == 0 {
      NoKeys(es);
    } else {
      ListedIs(es, f, i - 1);
      if f[i - 1] > 0 {
        assert es[i - 1 + 1].freq == f[i - 1];
        assert KeyAt(es, i) == Key(f[i - 1], 0);
        KeysOne(es, i);
        KeysConcat(es, Listed(f, i - 1), [i]);
      }
    }
  }

  /** It leads to what the frequencies give. */
  lemma StartLeads(es: seq<Ent>, h: seq<nat>, last: nat, f: seq<nat>)
    requires FreqsAre(es, f) && Fresh(es, |f|) && last < |h| && Items(h, last) == Active(f, |f|)
    ensures Leads(es, h, last, HeightOf(f), JoinsOf(f))
  {
    hide Height, Joins, Keys, Fresh, FreqsAre, Active;
    ListedIs(es, f, |f|);
    KeysSame(es, Listed(f, |f|), h[1..last + 1]);
  }

  lemma JoinLeads(es: seq<Ent>, h0: seq<nat>, h: seq<nat>, h': seq<nat>, last: nat, n: nat,
                  f: seq<nat>, root: seq<nat>, len: seq<nat>, least: nat, a: nat, b: nat, k: nat, j: nat)
    requires Building(es, h0, last, n, f, root, len, least) && Taken(es, h0, h, last, a, b) && Leads(es, h0, last, k, j)
    requires a < n < |es| && b < n && last - 1 < |h'|
    requires Items(h', last - 1) == Items(h, last - 2) + multiset{n}
    ensures es[a].freq + es[b].freq <= j && Leads(Joined(es, n, a, b), h', last - 1, k, j - es[a].freq - es[b].freq)
  {
    hide Height, Joins, Keys, HeapOk, Building, Joined, Less;
    BuildingIs(es, h0, last, n, f, root, len, least);
    JoinHeight(es, n, a, b, h0[1..last + 1], h'[1..last]);
  }

  /** The root that is left is that high, and so some code is longer than `max`
      exactly when the height is more. */
  lemma OverflowIs(es: seq<Ent>, h: seq<nat>, n: nat, f: seq<nat>, root: seq<nat>, len: seq<nat>, least: nat, k: nat, j: nat, max: nat)
    requires Building(es, h, 1, n, f, root, len, least) && 2 <= Positives(f, |f|) && Leads(es, h, 1, k, j)
    ensures |len| == |f| && j == 0
    ensures (exists i :: 0 <= i < |f| && FinalLens(f, len)[i] > max) <==> k > max
  {
    hide Fib, Share, ShareOf, Finished, WeightOf, Height, Joins, Keys, HeapOk, Leaf;
    OneRoot(es, h, n, f, root, len, least);
    var r := n - 1;
    assert Items(h, 1) == multiset{h[1]} && h[1..2] == [h[1]];
    assert h[1] == r;
    KeysOne(es, r);
    HeightOne(KeyAt(es, r));
    JoinsNone(multiset{KeyAt(es, r)});
    var d :| 0 <= d < |root| && root[d] == r && len[d] == es[r].depth;
    assert FinalLens(f, len)[d] == k;
  }

  // What the code costs.

  lemma {:induction false} CostZero(f: seq<nat>, len: seq<nat>, i: nat)
    requires i <= |f| == |len| && forall k | 0 <= k < |len| :: len[k] == 0
    ensures Cost(f, len, i) == 0
  {
    if i > 0 { CostZero(f, len, i - 1); }
  }

  /** One bit more for every symbol below the two that are joined. */
  lemma {:induction false} CostJoined(f: seq<nat>, root: seq<nat>, len: seq<nat>, a: nat, b: nat, i: nat)
    requires i <= |f| == |root| == |len| && a != b
    ensures Cost(f, Lens(root, len, a, b), i) == Cost(f, len, i) + WeightOf(f, root, a, i) + WeightOf(f, root, b, i)
  {
    if i > 0 {
      CostJoined(f, root, len, a, b, i - 1);
      assert (len[i - 1] + 1) * f[i - 1] == len[i - 1] * f[i - 1] + f[i - 1];
    }
  }

  lemma JoinCosts(es: seq<Ent>, h0: seq<nat>, h: seq<nat>, last: nat, n: nat,
                  f: seq<nat>, root: seq<nat>, len: seq<nat>, least: nat, a: nat, b: nat)
    requires Building(es, h0, last, n, f, root, len, least) && Taken(es, h0, h, last, a, b)
    ensures |root| == |len| == |f| && a < |es| && b < |es|
    ensures Cost(f, Lens(root, len, a, b), |f|) == Cost(f, len, |f|) + es[a].freq + es[b].freq
  {
    hide HeapOk, Leaf, Cost, WeightOf, ShareOf, Heavy, Deepest, Items, Less;
    assert Subtree(es, n, f, root, len, least, a) && Subtree(es, n, f, root, len, least, b) && a != b;
    CostJoined(f, root, len, a, b, |f|);
  }

  lemma {:induction false} CostFinal(f: seq<nat>, len: seq<nat>, i: nat)
    requires i <= |f| == |len|
    ensures Cost(f, FinalLens(f, len), i) == Cost(f, len, i)
  {
    if i > 0 { CostFinal(f, len, i - 1); }
  }

  /** What joining the two least over and over costs. */
  ghost function JoinsOf(f: seq<nat>): nat {
    Joins(Leaves(f, 0, |f|))
  }

  /** Lengths of some prefix code in which every symbol of weight has a code. */
  ghost predicate Enough(f: seq<nat>, c: seq<nat>, m: nat) {
    |c| == |f| && Kraft(c, m) && forall i | 0 <= i < |f| :: f[i] > 0 ==> c[i] > 0
  }

  /** The codes of the symbols of weight. */
  ghost function CodedOf(f: seq<nat>, c: seq<nat>, n: nat): seq<Coded>
    requires n <= |f| == |c|
  {
    if n == 0 then []
    else if f[n - 1] > 0 then CodedOf(f, c, n - 1) + [Coded(Key(f[n - 1], 0), c[n - 1])]
    else CodedOf(f, c, n - 1)
  }

  lemma ShareStep(c: seq<nat>, m: nat, n: nat)
    requires 0 < n <= |c|
    ensures Share(c[..n], m) == Share(c[..n - 1], m) + if 0 < c[n - 1] <= m then Pow2(m - c[n - 1]) else 0
  {
    assert c[..n][..n - 1] == c[..n - 1];
  }

  lemma NoneCoded(m: nat)
    ensures CostOf([]) == 0 && Parts([], m) == 0
  {
  }

  lemma {:induction false} CodedIs(f: seq<nat>, c: seq<nat>, m: nat, n: nat)
    requires n <= |f| && Enough(f, c, m)
    ensures var s := CodedOf(f, c, n);
      CostOf(s) == Cost(f, c, n) && UpTo(s, m) && Parts(s, m) <= Share(c[..n], m) && |s| == Positives(f, n)
  {
    hide Bits, KeysOf, Share, CostOf, Parts, Pow2, Kraft;
    if n == 0 {
      NoneCoded(m);
    } else {
      CodedIs(f, c, m, n - 1);
      ShareStep(c, m, n);
      LengthUpTo(c, m, n - 1);
      if f[n - 1] > 0 {
        var x := Coded(Key(f[n - 1], 0), c[n - 1]);
        OneCodeMore(CodedOf(f, c, n - 1), x, m);
        BitsOf(x);
      }
    }
  }

  lemma LengthUpTo(c: seq<nat>, m: nat, i: nat)
    requires Kraft(c, m) && i < |c|
    ensures c[i] <= m
  {
  }

  lemma BitsOf(x: Coded)
    ensures Bits(x) == x.len * x.key.freq
  {
  }

  lemma {:induction false} CodedKeys(f: seq<nat>, c: seq<nat>, n: nat)
    requires n <= |f| == |c|
    ensures KeysOf(CodedOf(f, c, n)) == Leaves(f, 0, n)
  {
    if n > 0 {
      CodedKeys(f, c, n - 1);
      if f[n - 1] > 0 {
        KeysLast(CodedOf(f, c, n));
        assert CodedOf(f, c, n)[..|CodedOf(f, c, n)| - 1] == CodedOf(f, c, n - 1);
      }
    }
  }

  /** No code costs less. */
  lemma JoinsBound(f: seq<nat>, c: seq<nat>, m: nat)
    requires Enough(f, c, m) && 0 < Positives(f, |f|)
    ensures JoinsOf(f) <= Cost(f, c, |f|)
  {
    hide Joins, CostOf, Parts, KeysOf, UpTo, Share, Cost, Positives;
    CodedIs(f, c, m, |f|);
    CodedKeys(f, c, |f|);
    assert c[..|f|] == c;
    JoinsLeast(CodedOf(f, c, |f|), m);
  }

  /** No prefix code for the symbols of weight costs fewer bits. */
  ghost predicate Optimal(f: seq<nat>, clen: seq<nat>) {
    |clen| == |f| && forall c, m | Enough(f, c, m) :: Cost(f, clen, |f|) <= Cost(f, c, |f|)
  }

  lemma IsOptimal(f: seq<nat>, clen: seq<nat>)
    requires |clen| == |f| && Cost(f, clen, |f|) == JoinsOf(f) && 0 < Positives(f, |f|)
    ensures Optimal(f, clen)
  {
    hide Cost, JoinsOf, Kraft, Positives;
    forall c, m | Enough(f, c, m) ensures Cost(f, clen, |f|) <= Cost(f, c, |f|) {
      JoinsBound(f, c, m);
    }
  }

  /** Build prefix tree. */
  method BuildTree(ents: array<Ent>, heap: array<nat>, last0: nat, asize: nat, ghost f: seq<nat>)
      returns (ghost n: nat, ghost root: seq<nat>, ghost len: seq<nat>, ghost least: nat)
    requires |f| == asize && Building(ents[..], heap[..], last0, asize + 1, f, InitRoots(f), InitLens(f), 1)
    requires last0 == Positives(f, asize) && Leads(ents[..], heap[..], last0, HeightOf(f), JoinsOf(f))
    modifies ents, heap
    ensures Building(ents[..], heap[..], 1, n, f, root, len, least)
    ensures |len| == |f| && Cost(f, len, asize) <= JoinsOf(f)
    ensures Leads(ents[..], heap[..], 1, HeightOf(f), JoinsOf(f) - Cost(f, len, asize))
  {
    hide Building, HeapOk, Items, Less, Joined, Roots, Lens, InitRoots, InitLens, Taken, Leads, Cost, HeightOf, JoinsOf;
    CostZero(f, InitLens(f), asize);
    var last: nat, size: nat := last0, asize + 1;
    root, len, least := InitRoots(f), InitLens(f), 1;
    BuildingIs(ents[..], heap[..], last, size, f, root, len, least);
    while last > 1
      invariant 0 < last && Building(ents[..], heap[..], last, size, f, root, len, least)
      invariant |root| == |len| == |f| && Cost(f, len, asize) <= JoinsOf(f)
      invariant Leads(ents[..], heap[..], last, HeightOf(f), JoinsOf(f) - Cost(f, len, asize))
    {
      ghost var es, h0 := ents[..], heap[..];
      BuildingIs(es, h0, last, size, f, root, len, least);
      ghost var h, a, b := TakeJoin(ents, heap, last, size, f, root, len, least);
      last := last - 1;
      AfterInsert(es, h0, h, heap[..], last + 1, size, f, root, len, least, a, b);
      JoinLeads(es, h0, h, heap[..], last + 1, size, f, root, len, least, a, b, HeightOf(f), JoinsOf(f) - Cost(f, len, asize));
      JoinCosts(es, h0, h, last + 1, size, f, root, len, least, a, b);
      root, len, least := Roots(root, a, b, size), Lens(root, len, a, b), es[b].freq;
      size := size + 1;
    }
    n := size;
  }

  /** Take two entries out, join them, and put the result in. */
  method TakeJoin(ents: array<Ent>, heap: array<nat>, last0: nat, n: nat,
                  ghost f: seq<nat>, ghost root: seq<nat>, ghost len: seq<nat>, ghost least: nat)
      returns (ghost h: seq<nat>, ghost a: nat, ghost b: nat)
    requires Building(ents[..], heap[..], last0, n, f, root, len, least) && 1 < last0 && n < ents.Length
    modifies ents, heap
    ensures Taken(old(ents[..]), old(heap[..]), h, last0, a, b) && a < n && b < n && last0 < |h|
    ensures ents[..] == Joined(old(ents[..]), n, a, b)
    ensures HeapOk(ents[..], heap[..], last0 - 1) && Items(heap[..], last0 - 1) == Items(h, last0 - 2) + multiset{n}
  {
    hide Building, HeapOk, Items, Joined;
    ghost var es, h0 := ents[..], heap[..];
    BuildingIs(es, h0, last0, n, f, root, len, least);
    var last := last0 - 1;
    var h1 := HeapExtract(heap, ents, last);
    last := last - 1;
    var h2 := HeapExtract(heap, ents, last);
    h, a, b := heap[..], h1, h2;
    BeforeInsert(es, h0, h, last0, n, f, root, len, least, a, b);
    Join(ents, n, h1, h2);
    last := last + 1;
    HeapInsert(heap, ents, last, n);
  }

  /** Make entry `n` the parent of two entries. */
  method Join(ents: array<Ent>, n: nat, a: nat, b: nat)
    requires a < n < ents.Length && b < n
    modifies ents
    ensures ents[..] == Joined(old(ents[..]), n, a, b)
  {
    ents[n] := ents[n].(freq := ents[a].freq + ents[b].freq);
    ents[n] := ents[n].(depth := 1 + Max(ents[a].depth, ents[b].depth));
    ents[n] := ents[n].(parent := 0);
    ents[a] := ents[a].(parent := n);
    ents[b] := ents[b].(parent := n);
  }

  /** The code lengths in the finished tree. */
  ghost function FinalLens(f: seq<nat>, len: seq<nat>): (clen: seq<nat>)
    requires |len| == |f|
    ensures |clen| == |f| && forall i | 0 <= i < |f| :: clen[i] == if f[i] == 0 then 0 else len[i]
  {
    seq(|f|, i requires 0 <= i < |f| => if f[i] == 0 then 0 else len[i])
  }

  /** Symbol `i` is `clen[i]` parents below the root `r`. */
  ghost predicate Below(es: seq<Ent>, n: nat, f: seq<nat>, clen: seq<nat>, r: nat, i: nat) {
    && i < |f| == |clen| && i + 1 < n <= |es| && es[i + 1].freq == f[i]
    && if f[i] == 0 then clen[i] == 0 else 0 < clen[i] && Climbs(es, n, i + 1, clen[i], r)
  }

  ghost predicate Finished(es: seq<Ent>, n: nat, f: seq<nat>, clen: seq<nat>, r: nat) {
    && |clen| == |f| && r < n <= |es| && es[r].parent == 0
    && forall i: nat | i < |f| :: Below(es, n, f, clen, r, i)
  }

  lemma {:induction false} FinalShare(f: seq<nat>, root: seq<nat>, len: seq<nat>, r: nat, max: nat, i: nat)
    requires i <= |f| == |root| == |len| && forall j | 0 <= j < |f| :: f[j] == 0 || len[j] > 0
    requires forall j | 0 <= j < |f| :: root[j] == r <==> f[j] > 0
    ensures Share(FinalLens(f, len)[..i], max) == ShareOf(len, root, r, max, i)
  {
    if i > 0 {
      FinalShare(f, root, len, r, max, i - 1);
      var c := FinalLens(f, len);
      assert c[..i][..i - 1] == c[..i - 1];
    }
  }

  lemma {:induction false} FinalWeight(f: seq<nat>, root: seq<nat>, r: nat, i: nat)
    requires i <= |f| == |root| && forall j | 0 <= j < |f| :: root[j] == r <==> f[j] > 0
    ensures WeightOf(f, root, r, i) == Sum(f, i)
  {
    if i > 0 { FinalWeight(f, root, r, i - 1); }
  }

  /** One tree is left: it has every symbol that occurs, below its root. */
  lemma OneRoot(es: seq<Ent>, h: seq<nat>, n: nat, f: seq<nat>, root: seq<nat>, len: seq<nat>, least: nat)
    requires Building(es, h, 1, n, f, root, len, least) && 2 <= Positives(f, |f|)
    ensures |root| == |len| == |f| && 0 < n && Subtree(es, n, f, root, len, least, n - 1)
    ensures Finished(es, n, f, FinalLens(f, len), n - 1)
    ensures forall i | 0 <= i < |f| :: root[i] == n - 1 <==> f[i] > 0
    ensures forall i | 0 <= i < |f| :: f[i] == 0 || 0 < len[i] <= es[n - 1].depth
  {
    hide Subtree, HeapOk;
    var act, r := Items(h, 1), n - 1;
    assert act == multiset{h[1]} == multiset{r} by { assert h[1..2] == [h[1]]; }
    assert es[r].parent == 0 by { JoinBounds(es, n, f, root, len, least, r); }
    forall i: nat | i < |f|
      ensures (root[i] == r <==> f[i] > 0) && (f[i] == 0 || 0 < len[i] <= es[r].depth)
      ensures Below(es, n, f, FinalLens(f, len), r, i)
    {
      assert Leaf(es, n, act, f, root, len, i);
    }
  }

  /** Without overflow the code is complete; with it some weight can still
      shrink. */
  lemma FinalCode(es: seq<Ent>, h: seq<nat>, n: nat, f: seq<nat>, root: seq<nat>, len: seq<nat>, least: nat, max: nat)
    requires Building(es, h, 1, n, f, root, len, least) && 2 <= Positives(f, |f|)
    ensures |len| == |f|
    ensures var clen := FinalLens(f, len);
      && (forall i | 0 <= i < |f| :: f[i] > 0 ==> clen[i] > 0)
      && if forall i | 0 <= i < |f| :: clen[i] <= max then Share(clen, max) == Pow2(max)
         else Fib(max + 3) <= Sum(f, |f|)
  {
    hide Building, Fib, Share, ShareOf, Finished, WeightOf, Sum;
    OneRoot(es, h, n, f, root, len, least);
    var clen, r := FinalLens(f, len), n - 1;
    if forall i | 0 <= i < |f| :: clen[i] <= max {
      var d :| 0 <= d < |root| && root[d] == r && len[d] == es[r].depth;
      assert clen[d] == es[r].depth;
      FinalShare(f, root, len, r, max, |f|);
      assert clen[..|f|] == clen;
    } else {
      FinalWeight(f, root, r, |f|);
      FibGrows(max + 3, es[r].depth + 2);
    }
  }

  /** Now compute prefix code lengths, counting parents. */
  method CodeLengths(ents: array<Ent>, freq: seq<nat>, asize: nat, maxLen: nat, ghost f: seq<nat>, ghost n: nat, ghost c: seq<nat>, ghost r: nat)
      returns (clen: seq<nat>, total: nat, overflow: bool)
    requires asize == |freq| == |f| == |c| && asize < ents.Length && Finished(ents[..], n, f, c, r)
    requires forall i | 0 <= i < asize && freq[i] > 0 :: f[i] > 0
    ensures clen == c && total == Cost(freq, c, asize)
    ensures overflow <==> exists i :: 0 <= i < asize && c[i] > maxLen
  {
    hide Climbs, Finished;
    var lens := new nat[asize];
    total, overflow := 0, false;
    for i := 0 to asize
      invariant lens[..i] == c[..i] && total == Cost(freq, c, i) && |c| == asize
      invariant overflow <==> exists k :: 0 <= k < i && c[k] > maxLen
    {
      BelowAt(ents[..], n, f, c, r, i);
      var b := 0;
      if ents[i + 1].freq != 0 {
        b := CountParents(ents, i + 1, n, c[i], r);
        if b > maxLen { overflow := true; }
        total := total + b * freq[i];
      }
      lens[i] := b;
      assert c[i] == b && lens[..i + 1] == lens[..i] + [b] && c[..i + 1] == c[..i] + [b];
    }
    clen := lens[..];
    assert lens[..] == lens[..asize] && c == c[..asize];
  }

  lemma BelowAt(es: seq<Ent>, n: nat, f: seq<nat>, c: seq<nat>, r: nat, i: nat)
    requires Finished(es, n, f, c, r) && i < |f|
    ensures Below(es, n, f, c, r, i) && r < n <= |es| && es[r].parent == 0
  {
  }

  method CountParents(ents: array<Ent>, p0: nat, ghost n: nat, ghost k: nat, ghost r: nat) returns (b: nat)
    requires Climbs(ents[..], n, p0, k, r) && r < n <= ents.Length && ents[r].parent == 0
    ensures b == k
  {
    var p: nat := p0;
    b := 0;
    while ents[p].parent != 0
      invariant b <= k && p < ents.Length && Climbs(ents[..], n, p, k - b, r)
      decreases k - b
    {
      p := ents[p].parent;
      b := b + 1;
    }
  }

  /** The frequencies that the overflow loop goes on with. */
  function Rescaled(f: seq<nat>): (r: seq<nat>)
    ensures |r| == |f| && forall i | 0 <= i < |f| :: r[i] == f[i] / 2 + 1
  {
    seq(|f|, i requires 0 <= i < |f| => f[i] / 2 + 1)
  }

  lemma {:induction false} RescaledPositive(f: seq<nat>, i: nat)
    requires i <= |f|
    ensures Positives(Rescaled(f), i) == i
  {
    if i > 0 { RescaledPositive(f, i - 1); }
  }

  lemma {:induction false} RescaledSum(f: seq<nat>, i: nat)
    requires i <= |f| && Positives(f, i) == i
    ensures Sum(Rescaled(f), i) <= Sum(f, i)
    ensures Sum(Rescaled(f), i) == Sum(f, i) ==> Sum(f, i) <= 2 * i
  {
    if i > 0 { RescaledSum(f, i - 1); }
  }

  /** Every round of the overflow loop makes progress. */
  lemma Progress(f: seq<nat>, max: nat)
    requires FewSymbols(|f|, max) && Fib(max + 3) <= Sum(f, |f|)
    ensures Positives(Rescaled(f), |f|) == |f|
    ensures Positives(f, |f|) == |f| ==> Sum(Rescaled(f), |f|) < Sum(f, |f|)
  {
    RescaledPositive(f, |f|);
    if Positives(f, |f|) == |f| { RescaledSum(f, |f|); }
  }

  lemma {:induction false} OnePositive(f: seq<nat>, i: nat, n: nat)
    requires i < n <= |f| && f[i] > 0
    ensures Positives(f, n) >= 1
    ensures Positives(f, n) == 1 ==> forall j | 0 <= j < n && j != i :: f[j] == 0
  {
    if i < n - 1 { OnePositive(f, i, n - 1); } else if Positives(f, n) == 1 { NoPositive(f, n - 1); }
  }

  lemma {:induction false} NoPositive(f: seq<nat>, n: nat)
    requires n <= |f| && Positives(f, n) == 0
    ensures forall j | 0 <= j < n :: f[j] == 0
  {
    if n > 0 { NoPositive(f, n - 1); }
  }

  lemma {:induction false} OneMore(f: seq<nat>, s: nat, n: nat)
    requires s < |f| && n <= |f| && f[s] == 0
    ensures Positives(f[s := 1], n) == Positives(f, n) + if s < n then 1 else 0
  {
    if n > 0 { OneMore(f, s, n - 1); }
  }

  /** The only symbol that occurs gets company: the first or the last symbol,
      which does not occur. */
  lemma FakeSecond(f: seq<nat>, i: nat)
    requires i < |f| && f[i] > 0 && Positives(f, |f|) == 1 && 2 <= |f|
    ensures var s := if f[0] != 0 then |f| - 1 else 0;
      f[s] == 0 && Positives(f[s := 1], |f|) == 2
  {
    OnePositive(f, i, |f|);
    OneMore(f, if f[0] != 0 then |f| - 1 else 0, |f|);
  }

  /** One round of `djw_build_prefix`, unless there is only one symbol. */
  method Attempt(ents: array<Ent>, heap: array<nat>, freq: seq<nat>, asize: nat, maxLen: nat, ghost f: seq<nat>)
      returns (last: nat, clen: seq<nat>, total: nat, overflow: bool)
    requires FreqsAre(ents[..], f) && |f| == |freq| == asize && ents.Length == 2 * asize && heap.Length == asize + 1
    requires 0 < Positives(f, asize) && forall i | 0 <= i < asize && freq[i] > 0 :: f[i] > 0
    modifies ents, heap
    ensures FreqsAre(ents[..], f) && last == Positives(f, asize)
    ensures last > 1 && !overflow ==> CompleteCode(freq, clen, maxLen) && total == Cost(freq, clen, asize)
    ensures last > 1 && !overflow ==> CodesFor(f, clen)
    ensures last > 1 && overflow ==> Fib(maxLen + 3) <= Sum(f, asize)
    ensures last > 1 ==> (overflow <==> HeightOf(f) > maxLen) && Optimal(f, clen)
  {
    hide Fib, Share, Building, Items, HeapOk, Fresh, Active, InitRoots, InitLens, Finished, Subtree, Positives, Sum, Leads, HeightOf,
      JoinsOf, Cost, Optimal;
    clen, total, overflow := [], 0, false;
    last := InitialHeap(ents, heap, f, asize);
    if last > 1 {
      StartBuilding(ents[..], heap[..], last, f);
      StartLeads(ents[..], heap[..], last, f);
      ghost var n, root, len, least := BuildTree(ents, heap, last, asize, f);
      OneRoot(ents[..], heap[..], n, f, root, len, least);
      FinalCode(ents[..], heap[..], n, f, root, len, least, maxLen);
      OverflowIs(ents[..], heap[..], n, f, root, len, least, HeightOf(f), JoinsOf(f) - Cost(f, len, asize), maxLen);
      CostFinal(f, len, asize);
      IsOptimal(f, FinalLens(f, len));
      FreqsKept(ents[..], n, f, FinalLens(f, len), n - 1);
      clen, total, overflow := CodeLengths(ents, freq, asize, maxLen, f, n, FinalLens(f, len), n - 1);
    }
  }

  lemma FreqsKept(es: seq<Ent>, n: nat, f: seq<nat>, c: seq<nat>, r: nat)
    requires Finished(es, n, f, c, r) && f != []
    ensures FreqsAre(es, f)
  {
    assert Below(es, n, f, c, r, |f| - 1);
    forall i: nat | i < |f| ensures i + 1 < |es| && es[i + 1].freq == f[i] {
      assert Below(es, n, f, c, r, i);
    }
  }

  /** Insert real symbol frequences. */
  method SetFreqs(ents: array<Ent>, freq: seq<nat>)
    requires |freq| < ents.Length
    modifies ents
    ensures FreqsAre(ents[..], freq)
  {
    for i := 0 to |freq|
      invariant forall j | 0 <= j < i :: ents[j + 1].freq == freq[j]
    {
      ents[i + 1] := ents[i + 1].(freq := freq[i]);
    }
  }

  method SetOne(ents: array<Ent>, ghost f: seq<nat>, s: nat)
    requires FreqsAre(ents[..], f) && ents.Length == 2 * |f| && s < |f|
    modifies ents
    ensures FreqsAre(ents[..], f[s := 1])
  {
    ents[s + 1] := ents[s + 1].(freq := 1);
  }

  method Rescale(ents: array<Ent>, ghost f: seq<nat>)
    requires FreqsAre(ents[..], f) && ents.Length == 2 * |f|
    modifies ents
    ensures FreqsAre(ents[..], Rescaled(f))
  {
    var asize := ents.Length / 2;
    for i := 0 to asize
      invariant forall j | 0 <= j < asize :: ents[j + 1].freq == if j < i then f[j] / 2 + 1 else f[j]
    {
      ents[i + 1] := ents[i + 1].(freq := ents[i + 1].freq / 2 + 1);
    }
  }

  /** The frequencies after `k` rounds of rescaling. */
  function Times(f: seq<nat>, k: nat): (r: seq<nat>)
    ensures |r| == |f|
  {
    if k == 0 then f else Rescaled(Times(f, k - 1))
  }

  /** After `k` rounds the tree fits for the first time. */
  ghost predicate Settles(f: seq<nat>, max: nat, k: nat) {
    HeightOf(Times(f, k)) <= max && forall j: nat | j < k :: HeightOf(Times(f, j)) > max
  }

  /** What `djw_build_prefix` is to find: a complete code, an optimal one for the
      frequencies of the first round in which no code is too long. */
  ghost predicate Built(freq: seq<nat>, clen: seq<nat>, max: nat) {
    && freq != [] && CompleteCode(freq, clen, max)
    && exists k: nat :: BuiltAfter(WithSecond(freq), clen, max, k)
  }

  ghost predicate BuiltAfter(f: seq<nat>, clen: seq<nat>, max: nat, k: nat) {
    Settles(f, max, k) && Optimal(Times(f, k), clen) && CodesFor(Times(f, k), clen)
  }

  lemma TimesIs(f: seq<nat>, k: nat)
    ensures Times(f, 0) == f && Times(f, k + 1) == Rescaled(Times(f, k))
  {
  }

  /** Only one round can be the first. */
  lemma SettlesOnce(f: seq<nat>, max: nat, j: nat, k: nat)
    requires Settles(f, max, j) && Settles(f, max, k)
    ensures j == k
  {
    hide HeightOf, Times;
  }

  lemma {:induction false} TimesPositive(f: seq<nat>, k: nat)
    requires 0 < k
    ensures forall i | 0 <= i < |f| :: Times(f, k)[i] > 0
  {
    if k > 1 { TimesPositive(f, k - 1); }
  }

  /** Which symbols have a code: those of weight, or all once something was
      rescaled. */
  lemma BuiltCodes(freq: seq<nat>, clen: seq<nat>, max: nat)
    requires Built(freq, clen, max)
    ensures if Overflows(freq, max) then forall i | 0 <= i < |freq| :: clen[i] > 0 else CodesFor(WithSecond(freq), clen)
  {
    hide CompleteCode, Optimal, HeightOf, WithSecond, Rescaled;
    var k: nat :| BuiltAfter(WithSecond(freq), clen, max, k);
    assert Times(WithSecond(freq), 0) == WithSecond(freq);
    SecondLong(freq);
    if k > 0 { TimesPositive(WithSecond(freq), k); }
  }

  lemma SecondLong(f: seq<nat>)
    requires f != []
    ensures |WithSecond(f)| == |f|
  {
  }

  // Longer codes for lighter symbols.

  lemma {:induction false} ShareOther(c: seq<nat>, i: nat, v: nat, m: nat)
    requires i < |c| && 0 < c[i] <= m && 0 < v <= m
    ensures Share(c[i := v], m) + Pow2(m - c[i]) == Share(c, m) + Pow2(m - v)
  {
    hide Pow2;
    var n := |c| - 1;
    if i == n {
      assert c[i := v][..n] == c[..n];
    } else {
      assert c[i := v][..n] == c[..n][i := v];
      ShareOther(c[..n], i, v, m);
    }
  }

  lemma {:induction false} CostOther(f: seq<nat>, c: seq<nat>, i: nat, v: nat, n: nat)
    requires i < n <= |f| == |c|
    ensures Cost(f, c[i := v], n) + c[i] * f[i] == Cost(f, c, n) + v * f[i]
  {
    if i < n - 1 {
      CostOther(f, c, i, v, n - 1);
    } else {
      CostSame(f, c, c[i := v], n - 1);
    }
  }

  lemma {:induction false} CostSame(f: seq<nat>, c: seq<nat>, d: seq<nat>, n: nat)
    requires n <= |f| == |c| == |d| && forall k | 0 <= k < n :: c[k] == d[k]
    ensures Cost(f, c, n) == Cost(f, d, n)
  {
    if n > 0 { CostSame(f, c, d, n - 1); }
  }

  /** In an optimal code a heavier symbol has no longer code. */
  lemma HeavierShorter(f: seq<nat>, clen: seq<nat>, max: nat, i: nat, j: nat)
    requires Optimal(f, clen) && Kraft(clen, max) && CodesFor(f, clen) && i < |f| && j < |f|
    requires f[j] < f[i] && 0 < clen[j]
    ensures clen[i] <= clen[j]
  {
    hide Share, Cost, Pow2;
    if clen[i] > clen[j] {
      var x, y := clen[i], clen[j];
      var c := clen[i := y];
      var d := c[j := x];
      ShareOther(clen, i, y, max);
      ShareOther(c, j, x, max);
      CostOther(f, clen, i, y, |f|);
      CostOther(f, c, j, x, |f|);
      assert Enough(f, d, max);
      Gain(f[i], f[j], x, y);
    }
  }

  lemma Gain(a: nat, b: nat, x: nat, y: nat)
    requires b < a && y < x
    ensures y * a + x * b < x * a + y * b
  {
    assert (a - b) * (x - y) > 0;
    assert (a - b) * (x - y) == x * a - x * b - y * a + y * b;
  }

  lemma Settled(freq: seq<nat>, clen: seq<nat>, max: nat, f: seq<nat>, k: nat)
    requires freq != [] && CompleteCode(freq, clen, max) && f == Times(WithSecond(freq), k)
    requires forall j: nat | j < k :: HeightOf(Times(WithSecond(freq), j)) > max
    requires HeightOf(f) <= max && Optimal(f, clen) && CodesFor(f, clen)
    ensures Built(freq, clen, max)
    ensures if Overflows(freq, max) then forall i | 0 <= i < |freq| :: clen[i] > 0 else CodesFor(WithSecond(freq), clen)
  {
    hide CompleteCode, Optimal, HeightOf, WithSecond, Rescaled, CodesFor, Overflows;
    assert BuiltAfter(WithSecond(freq), clen, max, k);
    BuiltCodes(freq, clen, max);
  }

  /** `djw_build_prefix`. */
  method BuildPrefix(freq: seq<nat>, maxLen: nat) returns (clen: seq<nat>, total: nat)
    requires FewSymbols(|freq|, maxLen) && exists i :: 0 <= i < |freq| && freq[i] > 0
    ensures Built(freq, clen, maxLen) && total == Cost(freq, clen, |freq|)
    ensures CompleteCode(freq, clen, maxLen)
    ensures if Overflows(freq, maxLen) then forall i | 0 <= i < |freq| :: clen[i] > 0 else CodesFor(WithSecond(freq), clen)
  {
    hide Fib, CompleteCode, Cost, Sum, Positives, CodesFor, WithSecond, Overflows, HeightOf, Optimal, Rescaled, Times, FreqsAre, Built;
    var asize := |freq|;
    ghost var some: nat :| some < asize && freq[some] > 0;
    var ents := new Ent[2 * asize](_ => Ent(0, 0, 0));
    var heap := new nat[asize + 1](_ => 0);
    SetFreqs(ents, freq);
    ghost var f := freq;
    ghost var k: nat := 0;
    OnePositive(f, some, asize);
    TimesIs(WithSecond(freq), 0);
    SecondIs(f);
    while true
      invariant FreqsAre(ents[..], f) && |f| == asize && 0 < Positives(f, asize) <= asize
      invariant forall i | 0 <= i < asize && freq[i] > 0 :: f[i] > 0
      invariant (k == 0 && f == freq) || 2 <= Positives(f, asize)
      invariant forall j: nat | j < k :: HeightOf(Times(WithSecond(freq), j)) > maxLen
      invariant f == Times(WithSecond(freq), k) || (k == 0 && f == freq && Positives(f, asize) == 1)
      decreases asize - Positives(f, asize), Sum(f, asize)
    {
      var last, lens, bits, overflow := Attempt(ents, heap, freq, asize, maxLen, f);
      if last == 1 {
        var s := if freq[0] != 0 then asize - 1 else 0;
        FakeSecond(f, some);
        NotAll(f);
        SetOne(ents, f, s);
        f := f[s := 1];
      } else if !overflow {
        Settled(freq, lens, maxLen, f, k);
        return lens, bits;
      } else {
        Progress(f, maxLen);
        Rescale(ents, f);
        TimesIs(WithSecond(freq), k);
        f := Rescaled(f);
        k := k + 1;
      }
    }
  }

  /** The symbols that have a code are those of weight. */
  ghost predicate CodesFor(f: seq<nat>, clen: seq<nat>) {
    |clen| == |f| && forall i | 0 <= i < |f| :: clen[i] > 0 <==> f[i] > 0
  }

  /** The frequencies, with company for an only symbol. */
  function WithSecond(freq: seq<nat>): (f: seq<nat>)
    requires freq != []
  {
    if Positives(freq, |freq|) == 1 then freq[if freq[0] != 0 then |freq| - 1 else 0 := 1] else freq
  }

  /** The tree over the frequencies is too high, and they are rescaled. */
  ghost predicate Overflows(freq: seq<nat>, max: nat)
    requires freq != []
  {
    HeightOf(WithSecond(freq)) > max
  }

  lemma SecondIs(f: seq<nat>)
    requires f != []
    ensures Positives(f, |f|) == 1 || WithSecond(f) == f
    ensures Positives(f, |f|) == 1 ==> WithSecond(f) == f[if f[0] != 0 then |f| - 1 else 0 := 1]
  {
  }

  lemma NotAll(f: seq<nat>)
    requires Positives(f, |f|) == 1 && 2 <= |f|
    ensures exists i :: 0 <= i < |f| && f[i] == 0
  {
    if f[0] > 0 && f[1] > 0 {
      OnePositive(f, 0, |f|);
    }
  }
}
