/** The heap of subtrees used to build prefix codes: slot 0 holds a sentinel,
    slots 1 to `last` a binary heap of entry numbers. */
module CodeHeap {

  /** `djw_heapen`. */
  datatype Ent = Ent(freq: nat, depth: nat, parent: nat)

  /** `heap_less`. */
  predicate Less(a: Ent, b: Ent) {
    a.freq < b.freq || (a.freq == b.freq && a.depth < b.depth)
  }

  ghost predicate InHeap(es: seq<Ent>, h: seq<nat>, i: nat) {
    i < |h| && 0 < h[i] < |es|
  }

  /** The item in slot `i` is not less than the one in slot `j`. */
  ghost predicate AtLeast(es: seq<Ent>, h: seq<nat>, i: nat, j: nat) {
    && i < |h| && h[i] < |es| && j < |h| && h[j] < |es|
    && !Less(es[h[i]], es[h[j]])
  }

  /** A child is not less than its parent. */
  ghost predicate Ordered(es: seq<Ent>, h: seq<nat>, i: nat) {
    AtLeast(es, h, i, i / 2)
  }

  ghost predicate Sentinel(es: seq<Ent>, h: seq<nat>) {
    0 < |h| && h[0] == 0 && 0 < |es| && es[0].freq == 0 && es[0].depth == 0
  }

  ghost predicate HeapOk(es: seq<Ent>, h: seq<nat>, last: nat) {
    && Sentinel(es, h) && last < |h|
    && (forall i: nat | 0 < i <= last :: InHeap(es, h, i))
    && (forall i: nat | 0 < i <= last :: Ordered(es, h, i))
  }

  ghost function Items(h: seq<nat>, last: nat): multiset<nat>
    requires last < |h|
  {
    multiset(h[1..last + 1])
  }

  lemma {:induction false} RootLeast(es: seq<Ent>, h: seq<nat>, last: nat, i: nat)
    requires HeapOk(es, h, last) && 0 < i <= last
    ensures InHeap(es, h, 1) && InHeap(es, h, i) && !Less(es[h[i]], es[h[1]])
  {
    if i > 1 {
      RootLeast(es, h, last, i / 2);
      assert Ordered(es, h, i);
    }
  }

  lemma ItemAt(h: seq<nat>, last: nat, x: nat) returns (i: nat)
    requires last < |h| && x in Items(h, last)
    ensures 0 < i <= last && h[i] == x
  {
    assert x in h[1..last + 1];
    var k :| 0 <= k < last && h[1..last + 1][k] == x;
    i := k + 1;
  }

  lemma ItemIn(h: seq<nat>, last: nat, i: nat)
    requires last < |h| && 0 < i <= last
    ensures h[i] in Items(h, last)
  {
    assert h[1..last + 1][i - 1] == h[i];
  }

  lemma LeastOfAll(es: seq<Ent>, h: seq<nat>, last: nat, x: nat)
    requires HeapOk(es, h, last) && x in Items(h, last)
    ensures InHeap(es, h, 1) && 0 < x < |es| && !Less(es[x], es[h[1]])
  {
    var i := ItemAt(h, last, x);
    RootLeast(es, h, last, i);
  }

  function Swap(h: seq<nat>, i: nat, j: nat): (r: seq<nat>)
    requires i < |h| && j < |h|
    ensures |r| == |h|
  {
    h[i := h[j]][j := h[i]]
  }

  lemma SwapItems(h: seq<nat>, i: nat, j: nat, last: nat)
    requires 0 < i <= last < |h| && 0 < j <= last
    ensures Items(Swap(h, i, j), last) == Items(h, last)
  {
    var s := h[1..last + 1];
    assert Swap(h, i, j)[1..last + 1] == s[i - 1 := s[j - 1]][j - 1 := s[i - 1]];
  }

  lemma AppendItem(h: seq<nat>, last: nat, e: nat)
    requires 0 < last < |h|
    ensures Items(h[last := e], last) == Items(h, last - 1) + multiset{e}
  {
    assert h[last := e][1..last + 1] == h[1..last] + [e];
  }

  lemma ReplaceFirst(t: seq<nat>, x: nat)
    requires t != []
    ensures multiset(t[0 := x]) == multiset(t + [x]) - multiset{t[0]}
  {
    assert multiset(t[0 := x]) == multiset(t) - multiset{t[0]} + multiset{x};
  }

  /** Taking the root away and putting the last item in its place. */
  lemma ReplaceRoot(h: seq<nat>, last: nat)
    requires last + 1 < |h|
    ensures h[1] in Items(h, last + 1)
    ensures Items(h[1 := h[last + 1]], last) == Items(h, last + 1) - multiset{h[1]}
  {
    var t, x := h[1..last + 1], h[last + 1];
    assert h[1..last + 2] == t + [x];
    ItemIn(h, last + 1, 1);
    if last > 0 {
      assert h[1 := x][1..last + 1] == t[0 := x];
      ReplaceFirst(t, x);
    } else {
      assert t == [] && h[1..2] == [h[1]];
    }
  }

  /** The order of a heap with a misplaced item at `p` that may have to go up:
      it may be less than its parent. */
  ghost predicate UpOk(es: seq<Ent>, h: seq<nat>, last: nat, p: nat) {
    && Sentinel(es, h) && 0 < p <= last < |h|
    && (forall i: nat | 0 < i <= last :: InHeap(es, h, i))
    && (forall i: nat | 0 < i <= last && i != p :: Ordered(es, h, i))
    && (forall i: nat | 0 < i <= last && i / 2 == p :: AtLeast(es, h, i, p / 2))
  }

  lemma UpStart(es: seq<Ent>, h: seq<nat>, p: nat, e: nat)
    requires 0 < p < |h| && HeapOk(es, h, p - 1) && 0 < e < |es|
    ensures UpOk(es, h[p := e], p, p)
  {
    var g := h[p := e];
    forall i: nat | 0 < i < p ensures InHeap(es, g, i) && Ordered(es, g, i) {
      assert InHeap(es, h, i) && Ordered(es, h, i);
    }
  }

  lemma UpStep(es: seq<Ent>, h: seq<nat>, last: nat, p: nat)
    requires UpOk(es, h, last, p) && !Ordered(es, h, p)
    ensures 0 < p / 2 && UpOk(es, Swap(h, p, p / 2), last, p / 2)
  {
    var q := p / 2;
    assert InHeap(es, h, p);
    assert q > 0 && InHeap(es, h, q);
    var g := Swap(h, p, q);
    assert Ordered(es, h, q) && InHeap(es, h, q);
    forall i: nat | 0 < i <= last && i != q ensures Ordered(es, g, i) {
      assert InHeap(es, h, i);
      assert i / 2 == p ==> AtLeast(es, h, i, q);
      assert i != p ==> Ordered(es, h, i);
    }
    forall i: nat | 0 < i <= last && i / 2 == q ensures AtLeast(es, g, i, q / 2) {
      assert InHeap(es, h, i);
      assert i != p ==> Ordered(es, h, i);
    }
    forall i: nat | 0 < i <= last ensures InHeap(es, g, i) {
      assert InHeap(es, h, i);
    }
  }

  lemma UpEnd(es: seq<Ent>, h: seq<nat>, last: nat, p: nat)
    requires UpOk(es, h, last, p) && Ordered(es, h, p)
    ensures HeapOk(es, h, last)
  {
    assert InHeap(es, h, p);
    forall i: nat | 0 < i <= last ensures Ordered(es, h, i) {
      assert InHeap(es, h, i);
    }
  }

  /** `heap_insert`: insert entry `e` into the next slot. */
  method HeapInsert(heap: array<nat>, ents: array<Ent>, p0: nat, e: nat)
    requires 0 < p0 < heap.Length && HeapOk(ents[..], heap[..], p0 - 1) && 0 < e < ents.Length
    modifies heap
    ensures HeapOk(ents[..], heap[..], p0)
    ensures Items(heap[..], p0) == old(Items(heap[..], p0 - 1)) + multiset{e}
  {
    hide HeapOk, UpOk, Items, Less;
    ghost var es: seq<Ent>, g: seq<nat> := ents[..], heap[..][p0 := e];
    UpStart(es, heap[..], p0, e);
    AppendItem(heap[..], p0, e);
    var p := p0;
    var pp := p / 2;
    UpBounds(es, g, p0, p);
    while Less(ents[e], ents[heap[pp]])
      invariant pp == p / 2 && UpOk(es, g, p0, p) && |g| == heap.Length && 0 < p <= p0 && g[p] == e
      invariant heap[..] == g[p := heap[p]] && Items(g, p0) == old(Items(heap[..], p0 - 1)) + multiset{e}
      invariant g[pp] < |es|
      decreases p
    {
      UpStep(es, g, p0, p);
      SwapItems(g, p, pp, p0);
      heap[p] := heap[pp];
      g := Swap(g, p, pp);
      p := pp;
      pp := p / 2;
      UpBounds(es, g, p0, p);
    }
    heap[p] := e;
    assert heap[..] == g;
    UpEnd(es, g, p0, p);
  }

  lemma UpBounds(es: seq<Ent>, h: seq<nat>, last: nat, p: nat)
    requires UpOk(es, h, last, p)
    ensures 0 < p < |h| && 0 < h[p] < |es| && h[p / 2] < |es|
    ensures Ordered(es, h, p) <==> !Less(es[h[p]], es[h[p / 2]])
  {
    assert InHeap(es, h, p);
    assert p / 2 > 0 ==> InHeap(es, h, p / 2);
  }

  /** The order of a heap with a misplaced item at `p` that may have to go down:
      it may be greater than its children. */
  ghost predicate DownOk(es: seq<Ent>, h: seq<nat>, last: nat, p: nat) {
    && Sentinel(es, h) && 0 < p && last < |h|
    && (forall i: nat | 0 < i <= last :: InHeap(es, h, i))
    && (forall i: nat | 0 < i <= last && i / 2 != p :: Ordered(es, h, i))
    && (forall i: nat | 0 < i <= last && i / 2 == p :: AtLeast(es, h, i, p / 2))
  }

  lemma DownStart(es: seq<Ent>, h: seq<nat>, last: nat)
    requires HeapOk(es, h, last + 1)
    ensures DownOk(es, h[1 := h[last + 1]], last, 1)
  {
    var g := h[1 := h[last + 1]];
    assert InHeap(es, h, last + 1);
    forall i: nat | 0 < i <= last ensures InHeap(es, g, i) { assert InHeap(es, h, i); }
    forall i: nat | 0 < i <= last && i / 2 != 1 ensures Ordered(es, g, i) {
      assert Ordered(es, h, i) && InHeap(es, g, i);
    }
    forall i: nat | 0 < i <= last && i / 2 == 1 ensures AtLeast(es, g, i, 0) {
      assert InHeap(es, g, i);
    }
  }

  /** `c` is a least child of `p`. */
  ghost predicate LeastChild(es: seq<Ent>, h: seq<nat>, last: nat, p: nat, c: nat) {
    && c / 2 == p && InHeap(es, h, c) && c <= last
    && forall i: nat | 0 < i <= last && i / 2 == p && InHeap(es, h, i) :: !Less(es[h[i]], es[h[c]])
  }

  lemma DownStep(es: seq<Ent>, h: seq<nat>, last: nat, p: nat, c: nat)
    requires DownOk(es, h, last, p) && LeastChild(es, h, last, p, c)
    ensures InHeap(es, h, p) && (Less(es[h[c]], es[h[p]]) ==> DownOk(es, Swap(h, c, p), last, c))
    ensures !Less(es[h[c]], es[h[p]]) ==> HeapOk(es, h, last)
  {
    assert InHeap(es, h, p);
    if Less(es[h[c]], es[h[p]]) {
      var g := Swap(h, c, p);
      assert AtLeast(es, h, c, p / 2);
      forall i: nat | 0 < i <= last && i / 2 != c ensures Ordered(es, g, i) {
        assert InHeap(es, h, i);
        assert i / 2 != p ==> Ordered(es, h, i);
      }
      forall i: nat | 0 < i <= last && i / 2 == c ensures AtLeast(es, g, i, c / 2) {
        assert InHeap(es, h, i) && Ordered(es, h, i);
      }
      forall i: nat | 0 < i <= last ensures InHeap(es, g, i) {
        assert InHeap(es, h, i);
      }
    } else {
      forall i: nat | 0 < i <= last ensures Ordered(es, h, i) {
        assert InHeap(es, h, i);
      }
    }
  }

  lemma DownEnd(es: seq<Ent>, h: seq<nat>, last: nat, p: nat)
    requires DownOk(es, h, last, p) && last < 2 * p
    ensures HeapOk(es, h, last)
  {
  }

  /** The child that `heap_extract` compares with. */
  lemma ChildLeast(es: seq<Ent>, h: seq<nat>, last: nat, p: nat)
    requires DownOk(es, h, last, p) && 2 * p <= last
    ensures InHeap(es, h, 2 * p) && InHeap(es, h, p) && (2 * p < last ==> InHeap(es, h, 2 * p + 1))
    ensures var c := if 2 * p < last && Less(es[h[2 * p + 1]], es[h[2 * p]]) then 2 * p + 1 else 2 * p;
      LeastChild(es, h, last, p, c)
  {
    assert InHeap(es, h, p);
  }

  /** `heap_extract`; the caller has decremented `last`. */
  method HeapExtract(heap: array<nat>, ents: array<Ent>, last: nat) returns (smallest: nat)
    requires last + 1 < heap.Length && HeapOk(ents[..], heap[..], last + 1)
    modifies heap
    ensures HeapOk(ents[..], heap[..], last)
    ensures smallest in old(Items(heap[..], last + 1)) && smallest < ents.Length
    ensures Items(heap[..], last) == old(Items(heap[..], last + 1)) - multiset{smallest}
    ensures forall x :: x in old(Items(heap[..], last + 1)) ==> x < ents.Length && !Less(ents[x], ents[smallest])
  {
    hide HeapOk, DownOk, LeastChild, Items, Less;
    ghost var es, h0 := ents[..], heap[..];
    Smallest(es, h0, last + 1);
    DownStart(es, h0, last);
    ReplaceRoot(h0, last);
    smallest := heap[1];
    heap[1] := heap[last + 1];
    assert heap[..] == h0[1 := h0[last + 1]];
    ghost var items := Items(heap[..], last);
    var p := 1;
    while true
      invariant 0 < p && DownOk(es, heap[..], last, p) && Items(heap[..], last) == items
      decreases last + 1 - p
    {
      var pc := p * 2;
      if pc > last {
        DownEnd(es, heap[..], last, p);
        break;
      }
      ChildLeast(es, heap[..], last, p);
      if pc < last && Less(ents[heap[pc + 1]], ents[heap[pc]]) {
        pc := pc + 1;
      }
      DownStep(es, heap[..], last, p, pc);
      SwapItems(heap[..], pc, p, last);
      if !Less(ents[heap[pc]], ents[heap[p]]) {
        break;
      }
      ghost var g := heap[..];
      var t := heap[pc];
      heap[pc] := heap[p];
      heap[p] := t;
      assert heap[..] == Swap(g, pc, p);
      p := pc;
    }
  }

  lemma Smallest(es: seq<Ent>, h: seq<nat>, last: nat)
    requires HeapOk(es, h, last) && 0 < last
    ensures InHeap(es, h, 1) && forall x :: x in Items(h, last) ==> x < |es| && !Less(es[x], es[h[1]])
  {
    assert InHeap(es, h, 1);
    forall x | x in Items(h, last) ensures x < |es| && !Less(es[x], es[h[1]]) {
      LeastOfAll(es, h, last, x);
    }
  }
}
