/** Slots of the block cache as nodes of a doubly linked recency list, on
    values: what moving and relinking slots does to the list. */
module LruList {
  import opened Sequences

  /** `lru_cache_entry_t`; `data` is the number of the slice it points to. */
  datatype Payload = Payload(id: nat, data: nat, size: nat)

  /** `struct blk`; a pointer to a block is its slot, NULL is -1. */
  datatype Block = Block(payload: Payload, next: int, prev: int)

  const NULL := -1

  function At(ord: seq<nat>, k: int): int {
    if 0 <= k < |ord| then ord[k] else NULL
  }

  /** Slot `ord[k]` is linked to its neighbours in `ord`. */
  ghost predicate LinkOk(bs: seq<Block>, ord: seq<nat>, k: nat) {
    k < |ord| && ord[k] < |bs| && bs[ord[k]].next == At(ord, k + 1) && bs[ord[k]].prev == At(ord, k - 1)
  }

  /** From `head`, the `next` links visit the slots of `ord` once each and in
      that order; the `prev` links from `tail` visit them in reverse. */
  ghost predicate Linked(bs: seq<Block>, ord: seq<nat>, head: int, tail: int) {
    && Distinct(ord) && (forall k | 0 <= k < |ord| :: ord[k] < |bs|)
    && (forall k: nat | k < |ord| :: LinkOk(bs, ord, k))
    && head == At(ord, 0) && tail == At(ord, |ord| - 1)
  }

  /** Point the neighbours of slot `to` at it. */
  function Repair(bs: seq<Block>, to: nat): (r: seq<Block>)
    requires to < |bs| && NULL <= bs[to].prev < |bs| && NULL <= bs[to].next < |bs|
    ensures |r| == |bs|
  {
    var p, n := bs[to].prev, bs[to].next;
    var b1 := if p != NULL then bs[p := bs[p].(next := to)] else bs;
    if n != NULL then b1[n := b1[n].(prev := to)] else b1
  }

  function Redirect(p: int, from: nat, to: nat): int {
    if p == from then to else p
  }

  /** Moving a block to a slot outside the list and repairing its neighbours
      replaces the slot in the list, and moves nothing else. */
  lemma MoveLinked(bs: seq<Block>, ord: seq<nat>, head: int, tail: int, k: nat, to: nat)
    requires Linked(bs, ord, head, tail) && k < |ord| && to < |bs| && to !in ord
    ensures var b0 := bs[to := bs[ord[k]]];
      && NULL <= b0[to].prev < |b0| && NULL <= b0[to].next < |b0|
      && Linked(Repair(b0, to), ord[k := to], Redirect(head, ord[k], to), Redirect(tail, ord[k], to))
  {
    var from := ord[k];
    var b0 := bs[to := bs[from]];
    assert LinkOk(bs, ord, k);
    assert k > 0 ==> LinkOk(bs, ord, k - 1);
    assert k + 1 < |ord| ==> LinkOk(bs, ord, k + 1);
    var ord' := ord[k := to];
    forall i: nat | i < |ord'| ensures LinkOk(Repair(b0, to), ord', i) {
      assert LinkOk(bs, ord, i);
    }
  }

  /** Apart from the slot filled, a move touches only the block's neighbours. */
  lemma MoveTouches(bs: seq<Block>, ord: seq<nat>, head: int, tail: int, k: nat, to: nat)
    requires Linked(bs, ord, head, tail) && k < |ord| && to < |bs| && to !in ord
    ensures var b0 := bs[to := bs[ord[k]]];
      && NULL <= b0[to].prev < |b0| && NULL <= b0[to].next < |b0|
      && (forall s | 0 <= s < |bs| && s !in ord && s != to :: Repair(b0, to)[s] == bs[s])
      && Repair(b0, to)[ord[k]] == bs[ord[k]]
  {
    assert LinkOk(bs, ord, k);
  }

  /** Payloads move with their blocks only. */
  lemma RepairPayload(bs: seq<Block>, to: nat)
    requires to < |bs| && NULL <= bs[to].prev < |bs| && NULL <= bs[to].next < |bs|
    ensures forall s | 0 <= s < |bs| :: Repair(bs, to)[s].payload == bs[s].payload
  {
  }

  function Without(ord: seq<nat>, k: nat): seq<nat>
    requires k < |ord|
  {
    ord[..k] + ord[k + 1..]
  }

  /** Bypass slot `s`: its neighbours are linked to each other. */
  function Bypass(bs: seq<Block>, s: nat): (r: seq<Block>)
    requires s < |bs| && NULL <= bs[s].prev < |bs| && NULL <= bs[s].next < |bs|
    ensures |r| == |bs|
  {
    var p, n := bs[s].prev, bs[s].next;
    var b1 := if p != NULL then bs[p := bs[p].(next := n)] else bs;
    if n != NULL then b1[n := b1[n].(prev := b1[s].prev)] else b1
  }

  /** Taking a slot out of the list. */
  lemma BypassLinked(bs: seq<Block>, ord: seq<nat>, head: int, tail: int, k: nat)
    requires Linked(bs, ord, head, tail) && k < |ord|
    ensures NULL <= bs[ord[k]].prev < |bs| && NULL <= bs[ord[k]].next < |bs|
    ensures var o := Without(ord, k); Linked(Bypass(bs, ord[k]), o, At(o, 0), At(o, |o| - 1))
  {
    assert LinkOk(bs, ord, k);
    assert k > 0 ==> LinkOk(bs, ord, k - 1);
    assert k + 1 < |ord| ==> LinkOk(bs, ord, k + 1);
    var o := Without(ord, k);
    forall i: nat | i < |o| ensures LinkOk(Bypass(bs, ord[k]), o, i) {
      assert LinkOk(bs, ord, if i < k then i else i + 1);
    }
  }

  /** Putting a slot outside the list in front of it. */
  lemma PushLinked(bs: seq<Block>, ord: seq<nat>, head: int, tail: int, s: nat)
    requires Linked(bs, ord, head, tail) && s < |bs| && s !in ord
    requires bs[s].prev == NULL && bs[s].next == head
    ensures var b := if head != NULL then bs[head := bs[head].(prev := s)] else bs;
      Linked(b, [s] + ord, s, if head == NULL then s else tail)
  {
    var o := [s] + ord;
    var b := if head != NULL then bs[head := bs[head].(prev := s)] else bs;
    forall i: nat | i < |o| ensures LinkOk(b, o, i) {
      assert i > 0 ==> LinkOk(bs, ord, i - 1);
      assert i > 1 ==> LinkOk(bs, ord, i - 2);
    }
  }

  /** Changing what slots outside the list hold does not change the list. */
  lemma OutsideLinked(bs: seq<Block>, ord: seq<nat>, head: int, tail: int, s: nat, b: Block)
    requires Linked(bs, ord, head, tail) && s < |bs| && s !in ord
    ensures Linked(bs[s := b], ord, head, tail)
  {
    var bs' := bs[s := b];
    forall i: nat | i < |ord| ensures LinkOk(bs', ord, i) {
      assert LinkOk(bs, ord, i);
    }
  }

  /** Nor does changing payloads. */
  lemma PayloadLinked(bs: seq<Block>, ord: seq<nat>, head: int, tail: int, s: nat, p: Payload)
    requires Linked(bs, ord, head, tail) && s < |bs|
    ensures Linked(bs[s := bs[s].(payload := p)], ord, head, tail)
  {
    var bs' := bs[s := bs[s].(payload := p)];
    forall i: nat | i < |ord| ensures LinkOk(bs', ord, i) {
      assert LinkOk(bs, ord, i);
    }
  }

  /** Moving the block at place `k > 0` of the list to the front. */
  function ToFront(bs: seq<Block>, head: nat, s: nat): (r: seq<Block>)
    requires s < |bs| && NULL <= bs[s].prev < |bs| && NULL <= bs[s].next < |bs| && head < |bs|
    ensures |r| == |bs|
  {
    var b1 := Bypass(bs, s);
    var b2 := b1[s := b1[s].(prev := NULL, next := head)];
    b2[head := b2[head].(prev := s)]
  }

  lemma ToFrontLinked(bs: seq<Block>, ord: seq<nat>, head: int, tail: int, k: nat)
    requires Linked(bs, ord, head, tail) && 0 < k < |ord|
    ensures 0 <= head < |bs| && NULL <= bs[ord[k]].prev < |bs| && NULL <= bs[ord[k]].next < |bs|
    ensures Linked(ToFront(bs, head, ord[k]), [ord[k]] + Without(ord, k), ord[k],
                   if ord[k] == tail then bs[ord[k]].prev else tail)
    ensures forall i | 0 <= i < |bs| :: ToFront(bs, head, ord[k])[i].payload == bs[i].payload
  {
    var s := ord[k];
    var o := Without(ord, k);
    assert LinkOk(bs, ord, 0) && LinkOk(bs, ord, k);
    BypassLinked(bs, ord, head, tail, k);
    var b1 := Bypass(bs, s);
    assert s !in o;
    OutsideLinked(b1, o, At(o, 0), At(o, |o| - 1), s, b1[s].(prev := NULL, next := head));
    var b2 := b1[s := b1[s].(prev := NULL, next := head)];
    PushLinked(b2, o, At(o, 0), At(o, |o| - 1), s);
  }

  /** Dropping the last slot of the list: its predecessor becomes the last. */
  lemma DropLastLinked(bs: seq<Block>, ord: seq<nat>, head: int, tail: int)
    requires Linked(bs, ord, head, tail) && 2 <= |ord|
    ensures 0 <= tail < |bs| && 0 <= bs[tail].prev < |bs|
    ensures var p := bs[tail].prev; Linked(bs[p := bs[p].(next := NULL)], ord[..|ord| - 1], head, p)
  {
    var n := |ord|;
    assert LinkOk(bs, ord, n - 1) && LinkOk(bs, ord, n - 2);
    var p := bs[tail].prev;
    var b, o := bs[p := bs[p].(next := NULL)], ord[..n - 1];
    forall i: nat | i < |o| ensures LinkOk(b, o, i) {
      assert LinkOk(bs, ord, i);
    }
  }

  /** Where slots are once the hole at `t` has travelled up to `j`. */
  function Down(ord: seq<nat>, t: nat, j: nat): (r: seq<nat>)
    ensures |r| == |ord|
  {
    seq(|ord|, k requires 0 <= k < |ord| => if t < ord[k] <= j then ord[k] - 1 else ord[k])
  }

  lemma DownStep(ord: seq<nat>, t: nat, j: nat, k: nat)
    requires Distinct(ord) && t !in ord && t <= j && k < |ord| && ord[k] == j + 1
    ensures Down(ord, t, j)[k] == j + 1 && j !in Down(ord, t, j)
    ensures Down(ord, t, j + 1) == Down(ord, t, j)[k := j]
  {
  }

  /** Where slots are once the hole at `n` has travelled down to `j`. */
  function Up(ord: seq<nat>, j: nat, n: nat): (r: seq<nat>)
    ensures |r| == |ord|
  {
    seq(|ord|, k requires 0 <= k < |ord| => if j <= ord[k] < n then ord[k] + 1 else ord[k])
  }

  lemma UpStep(ord: seq<nat>, j: nat, n: nat, k: nat)
    requires Distinct(ord) && n !in ord && 0 < j <= n && k < |ord| && ord[k] == j - 1
    ensures Up(ord, j, n)[k] == j - 1 && j !in Up(ord, j, n)
    ensures Up(ord, j - 1, n) == Up(ord, j, n)[k := j]
  {
  }

  /** The payloads, slot by slot. */
  function Pays(bs: seq<Block>): (p: seq<Payload>)
    ensures |p| == |bs| && forall s | 0 <= s < |bs| :: p[s] == bs[s].payload
  {
    seq(|bs|, s requires 0 <= s < |bs| => bs[s].payload)
  }

  /** Payloads after slots `t + 1` to `j` have moved down by one. */
  function PaysDown(p: seq<Payload>, t: nat, j: nat): seq<Payload>
    requires t <= j < |p|
  {
    p[..t] + p[t + 1..j + 1] + p[j..]
  }

  /** The slot whose payload is at `s` afterwards. */
  function FromDown(t: nat, j: nat, s: nat): nat {
    if t <= s < j then s + 1 else s
  }

  lemma DownFrom(ord: seq<nat>, t: nat, i: nat, k: nat)
    requires t <= i && k < |ord| && ord[k] != t
    ensures Down(ord, t, i)[k] != i && FromDown(t, i, Down(ord, t, i)[k]) == ord[k]
  {
  }

  lemma PaysDownAt(p: seq<Payload>, t: nat, j: nat)
    requires t <= j < |p|
    ensures |PaysDown(p, t, j)| == |p|
    ensures forall s | 0 <= s < |p| :: PaysDown(p, t, j)[s] == p[FromDown(t, j, s)]
  {
  }

  lemma PaysDownStep(p: seq<Payload>, t: nat, j: nat)
    requires t <= j && j + 1 < |p|
    ensures |PaysDown(p, t, j)| == |p|
    ensures PaysDown(p, t, j + 1) == PaysDown(p, t, j)[j := PaysDown(p, t, j)[j + 1]]
  {
  }

  /** Payloads after slots `j` to `n - 1` have moved up by one. */
  function PaysUp(p: seq<Payload>, j: nat, n: nat): seq<Payload>
    requires j <= n < |p|
  {
    p[..j + 1] + p[j..n] + p[n + 1..]
  }

  function FromUp(j: nat, n: nat, s: nat): nat {
    if j < s <= n then s - 1 else s
  }

  lemma PaysUpAt(p: seq<Payload>, j: nat, n: nat)
    requires j <= n < |p|
    ensures |PaysUp(p, j, n)| == |p|
    ensures forall s | 0 <= s < |p| :: PaysUp(p, j, n)[s] == p[FromUp(j, n, s)]
  {
  }

  lemma PaysUpStep(p: seq<Payload>, j: nat, n: nat)
    requires 0 < j <= n < |p|
    ensures |PaysUp(p, j, n)| == |p|
    ensures PaysUp(p, j - 1, n) == PaysUp(p, j, n)[j := PaysUp(p, j, n)[j - 1]]
  {
  }

  /** A move, all told; `n` bounds the slots in play. */
  lemma MoveAll(bs: seq<Block>, ord: seq<nat>, head: int, tail: int, k: nat, to: nat, n: nat)
    requires Linked(bs, ord, head, tail) && k < |ord| && to < n <= |bs| && to !in ord
    requires forall i | 0 <= i < |ord| :: ord[i] < n
    ensures var from := ord[k]; var b0 := bs[to := bs[from]];
      && NULL <= b0[to].prev < |b0| && NULL <= b0[to].next < |b0|
      && var b := Repair(b0, to);
      && Linked(b, ord[k := to], Redirect(head, from, to), Redirect(tail, from, to))
      && Pays(b) == Pays(bs)[to := Pays(bs)[from]]
      && b[n..] == bs[n..] && b[from] == bs[from]
  {
    MoveLinked(bs, ord, head, tail, k, to);
    MoveTouches(bs, ord, head, tail, k, to);
    RepairPayload(bs[to := bs[ord[k]]], to);
    hide Linked, Repair;
    forall s | n <= s < |bs| ensures Repair(bs[to := bs[ord[k]]], to)[s] == bs[s] {
    }
  }

  /** A free slot linked in front of a nonempty list, whatever it is to hold. */
  lemma FrontLinked(bs: seq<Block>, ord: seq<nat>, head: int, tail: int, i: nat, p: Payload, q: Payload)
    requires Linked(bs, ord, head, tail) && ord != [] && i < |bs| && i !in ord
    ensures 0 <= head < |bs|
    ensures var b1 := bs[i := Block(p, head, NULL)];
      var b2 := b1[head := b1[head].(prev := i)];
      Linked(b2[i := b2[i].(payload := q)], [i] + ord, i, tail)
  {
    var b1 := bs[i := Block(p, head, NULL)];
    OutsideLinked(bs, ord, head, tail, i, Block(p, head, NULL));
    PushLinked(b1, ord, head, tail, i);
    var b2 := b1[head := b1[head].(prev := i)];
    PayloadLinked(b2, [i] + ord, i, tail, i, q);
  }

  /** The hole is where no slot of the list is. */
  lemma DownHole(ord: seq<nat>, t: nat, i: nat)
    requires t !in ord && t <= i
    ensures i !in Down(ord, t, i)
  {
  }

  lemma UpHole(ord: seq<nat>, i: nat, n: nat)
    requires n !in ord && i <= n
    ensures i !in Up(ord, i, n)
  {
  }

  lemma LastSlot(bs: seq<Block>, ord: seq<nat>, head: int, tail: int)
    requires Linked(bs, ord, head, tail) && ord != []
    ensures 0 <= tail < |bs| && tail == ord[|ord| - 1] && tail !in ord[..|ord| - 1]
    ensures 0 <= head < |bs| && head == ord[0]
  {
  }

  lemma InPrefix(ord: seq<nat>, s: nat)
    requires ord != [] && s in ord && s != ord[|ord| - 1]
    ensures s in ord[..|ord| - 1]
  {
  }

  /** The first slot of all. */
  lemma FirstLinked(bs: seq<Block>, s: nat)
    requires s < |bs| && bs[s].prev == NULL && bs[s].next == NULL
    ensures Linked(bs, [s], s, s)
  {
  }
}
