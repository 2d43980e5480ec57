/** The least-recently-used block cache: an array of slots sorted by id that is
    at the same time a doubly linked list in order of use. */
module LruCache {
  import opened Bytes
  import opened Options
  import opened LruList
  import opened Sequences

  datatype Entry = Entry(id: nat, bytes: seq<byte>)

  /** The fields of `struct lru_cache`; `bs` and `slices` have `max_blocks`
      elements, each slice `size` bytes. */
  datatype Fields = Fields(bs: seq<Block>, slices: seq<seq<byte>>, head: int, tail: int, cur: nat, size: nat)

  ghost predicate Shape(f: Fields) {
    && |f.bs| == |f.slices| && f.cur <= |f.bs|
    && (forall d | 0 <= d < |f.slices| :: |f.slices[d]| == f.size)
    && (forall s | 0 <= s < |f.bs| :: f.bs[s].payload.data < |f.slices|)
    && (forall s | 0 <= s < f.cur :: f.bs[s].payload.size <= f.size)
  }

  ghost predicate SortedIds(f: Fields)
    requires f.cur <= |f.bs|
  {
    forall i, j | 0 <= i < j < f.cur :: f.bs[i].payload.id < f.bs[j].payload.id
  }

  /** No two slots point to the same data. */
  ghost predicate OwnSlices(f: Fields) {
    forall i, j | 0 <= i < j < |f.bs| :: f.bs[i].payload.data != f.bs[j].payload.data
  }

  /** The list of use is `o`, which holds every live slot once; slots never used
      are not linked. */
  ghost predicate ListIs(f: Fields, o: seq<nat>) {
    && |o| == f.cur <= |f.bs| && (forall k | 0 <= k < |o| :: o[k] < f.cur)
    && (forall s | 0 <= s < f.cur :: s in o)
    && Linked(f.bs, o, f.head, f.tail)
    && (forall s | f.cur <= s < |f.bs| :: f.bs[s].next == NULL && f.bs[s].prev == NULL)
  }

  /** The invariant of the cache. */
  ghost predicate Intact(f: Fields, o: seq<nat>) {
    Shape(f) && SortedIds(f) && OwnSlices(f) && ListIs(f, o)
  }

  /** The entry of the abstract cache that a slot holds. */
  ghost function EntryAt(f: Fields, s: nat): Entry
    requires Shape(f) && s < f.cur
  {
    Entry(f.bs[s].payload.id, f.slices[f.bs[s].payload.data][..f.bs[s].payload.size])
  }

  /** The entries, most recently used first. */
  ghost function Recency(f: Fields, o: seq<nat>): (r: seq<Entry>)
    requires Intact(f, o)
    ensures |r| == f.cur
  {
    seq(f.cur, k requires 0 <= k < f.cur => EntryAt(f, o[k]))
  }

  /** An id that is not cached would be inserted before slot `i`. */
  ghost predicate InsertAt(f: Fields, id: nat, i: nat)
    requires f.cur <= |f.bs|
  {
    && i <= f.cur
    && (forall s | 0 <= s < i :: f.bs[s].payload.id < id)
    && (forall s | i <= s < f.cur :: id < f.bs[s].payload.id)
  }

  ghost predicate Holds(r: seq<Entry>, id: nat) {
    exists k :: 0 <= k < |r| && r[k].id == id
  }

  /** The list with its entry `k` used. */
  ghost function Used(r: seq<Entry>, k: nat): seq<Entry>
    requires k < |r|
  {
    [r[k]] + r[..k] + r[k + 1..]
  }

  /** The specification of `lru_cache_get`: a use moves the entry to the front. */
  ghost predicate AfterGet(r: seq<Entry>, id: nat, r': seq<Entry>) {
    if Holds(r, id) then exists k :: 0 <= k < |r| && r[k].id == id && r' == Used(r, k) else r' == r
  }

  /** Whether an id is cached, slot-wise and list-wise. */
  lemma HoldsSlot(f: Fields, o: seq<nat>, s: nat) returns (k: nat)
    requires Intact(f, o) && s < f.cur
    ensures k < f.cur && o[k] == s && Recency(f, o)[k] == EntryAt(f, s)
  {
    assert s in o;
    k :| k < |o| && o[k] == s;
  }

  lemma HoldsNot(f: Fields, o: seq<nat>, id: nat, i: nat)
    requires Intact(f, o) && InsertAt(f, id, i)
    ensures !Holds(Recency(f, o), id)
  {
    forall k | 0 <= k < f.cur ensures Recency(f, o)[k].id != id {
      assert f.bs[o[k]].payload.id != id;
    }
  }

  /** The fields after the entry at place `k > 0` of the list was used. */
  ghost function UsedFields(f: Fields, o: seq<nat>, k: nat): Fields
    requires ListIs(f, o) && 0 < k < f.cur
  {
    ToFrontLinked(f.bs, o, f.head, f.tail, k);
    f.(bs := ToFront(f.bs, f.head, o[k]), head := o[k], tail := if o[k] == f.tail then f.bs[o[k]].prev else f.tail)
  }

  lemma UseList(f: Fields, o: seq<nat>, k: nat)
    requires ListIs(f, o) && 0 < k < f.cur
    ensures ListIs(UsedFields(f, o, k), [o[k]] + Without(o, k))
  {
    var f', o' := UsedFields(f, o, k), [o[k]] + Without(o, k);
    ToFrontLinked(f.bs, o, f.head, f.tail, k);
    forall s | 0 <= s < f.cur ensures s in o' {
      assert s in o;
      var j :| 0 <= j < |o| && o[j] == s;
      assert if j == k then o'[0] == s else o'[if j < k then j + 1 else j] == s;
    }
    assert LinkOk(f.bs, o, k) && LinkOk(f.bs, o, 0);
    hide Linked;
    forall s | f.cur <= s < |f.bs| ensures f'.bs[s].next == NULL && f'.bs[s].prev == NULL {
    }
  }

  /** What depends on payloads and slices only. */
  lemma PayloadsKept(f: Fields, f': Fields)
    requires Shape(f) && SortedIds(f) && OwnSlices(f)
    requires |f'.bs| == |f.bs| && f'.slices == f.slices && f'.cur == f.cur && f'.size == f.size
    requires forall s | 0 <= s < |f.bs| :: f'.bs[s].payload == f.bs[s].payload
    ensures Shape(f') && SortedIds(f') && OwnSlices(f')
    ensures forall s | 0 <= s < f.cur :: EntryAt(f', s) == EntryAt(f, s)
  {
  }

  lemma UseIntact(f: Fields, o: seq<nat>, k: nat)
    requires Intact(f, o) && 0 < k < f.cur
    ensures var f', o' := UsedFields(f, o, k), [o[k]] + Without(o, k);
      Intact(f', o') && Recency(f', o') == Used(Recency(f, o), k)
  {
    var f', o' := UsedFields(f, o, k), [o[k]] + Without(o, k);
    UseList(f, o, k);
    ToFrontLinked(f.bs, o, f.head, f.tail, k);
    hide Linked, ToFront;
    PayloadsKept(f, f');
    assert (forall j | 0 <= j < f.cur :: o[j] < f.cur) && (forall j | 0 <= j < f.cur :: o'[j] < f.cur);
    hide OwnSlices, SortedIds, EntryAt, ListIs, Shape;
    forall i | 0 <= i < f.cur ensures Recency(f', o')[i] == Used(Recency(f, o), k)[i] {
    }
  }

  /** All there is to know to use the entry in slot `i`, not the head. */
  lemma UseSlot(f: Fields, o: seq<nat>, i: nat) returns (k: nat, o': seq<nat>)
    requires Intact(f, o) && i < f.cur && i != f.head
    ensures 0 <= f.head < |f.bs| && i < |f.bs| && 0 < k < f.cur == |o| && o[k] == i
    ensures NULL <= f.bs[i].prev < |f.bs| && NULL <= f.bs[i].next < |f.bs|
    ensures var f' := f.(bs := ToFront(f.bs, f.head, i), head := i, tail := if i == f.tail then f.bs[i].prev else f.tail);
      Intact(f', o') && Recency(f', o') == Used(Recency(f, o), k) && Pays(f'.bs) == Pays(f.bs)
    ensures Recency(f, o)[k].id == f.bs[i].payload.id
  {
    k := HoldsSlot(f, o, i);
    o' := [o[k]] + Without(o, k);
    ToFrontLinked(f.bs, o, f.head, f.tail, k);
    UseIntact(f, o, k);
  }

  /** The specification of `lru_cache_put` for a cache of `max` entries: the new
      entry is the most recent; the least recent one makes room if need be. */
  ghost predicate AfterPut(r: seq<Entry>, e: Entry, max: nat, r': seq<Entry>) {
    if Holds(r, e.id) then
      exists k :: 0 <= k < |r| && r[k].id == e.id && r' == [e] + r[..k] + r[k + 1..]
    else r' == [e] + if |r| == max && 0 < max then r[..|r| - 1] else r
  }

  /** When insertion keeps the cache intact: the id is already cached, or goes
      past the last slot, or before the most recent slot while there is room, or
      into the least recent slot when there is none. */
  ghost predicate Safe(f: Fields, id: nat)
    requires f.cur <= |f.bs|
  {
    forall i: nat | InsertAt(f, id, i) ::
      i == f.cur || (if f.cur < |f.bs| then i == f.head else i == f.tail)
  }

  lemma LastIsHighest(f: Fields, o: seq<nat>)
    requires Intact(f, o) && 0 < f.cur
    ensures var id := f.bs[f.cur - 1].payload.id;
      Holds(Recency(f, o), id) && forall k | 0 <= k < f.cur :: Recency(f, o)[k].id <= id
  {
    var k := HoldsSlot(f, o, f.cur - 1);
    assert Recency(f, o)[k].id == f.bs[f.cur - 1].payload.id;
    hide Linked;
    forall j | 0 <= j < f.cur ensures Recency(f, o)[j].id <= f.bs[f.cur - 1].payload.id {
      assert o[j] < f.cur;
    }
  }

  /** The client's discipline is enough: ids only go up. */
  lemma AscendingSafe(f: Fields, o: seq<nat>, id: nat)
    requires Intact(f, o) && forall k | 0 <= k < f.cur :: Recency(f, o)[k].id < id
    ensures f.cur <= |f.bs| && Safe(f, id)
  {
    hide Linked;
    forall s: nat | s < f.cur ensures !InsertAt(f, id, s) {
      var k := HoldsSlot(f, o, s);
      assert Recency(f, o)[k].id < id;
    }
  }

  /** Overwriting the data of a slot. */
  function Write(f: Fields, s: nat, id: nat, bytes: seq<byte>): Fields
    requires s < |f.bs| && f.bs[s].payload.data < |f.slices|
    requires |bytes| <= |f.slices[f.bs[s].payload.data]|
  {
    var d := f.bs[s].payload.data;
    f.(slices := f.slices[d := bytes + f.slices[d][|bytes|..]],
       bs := f.bs[s := f.bs[s].(payload := Payload(id, d, |bytes|))])
  }

  /** The entry in slot `i` is new and first; `keep` old entries follow it, each
      with its payload in the slot now at its place of the list. */
  ghost predicate Inserted(f: Fields, o: seq<nat>, f': Fields, oS: seq<nat>, i: nat, e: Entry, d: nat)
    requires Intact(f, o)
  {
    && |oS| <= |o| && i < |f'.bs| == |f.bs| && d < |f.slices| && |e.bytes| <= f.size == f'.size
    && f'.slices == f.slices[d := e.bytes + f.slices[d][|e.bytes|..]]
    && f'.bs[i].payload == Payload(e.id, d, |e.bytes|)
    && forall k | 0 <= k < |oS| ::
         oS[k] < |f'.bs| && f'.bs[oS[k]].payload == f.bs[o[k]].payload && f.bs[o[k]].payload.data != d
  }

  lemma InsertedRecency(f: Fields, o: seq<nat>, f': Fields, oS: seq<nat>, i: nat, e: Entry, d: nat)
    requires Intact(f, o) && Inserted(f, o, f', oS, i, e, d) && Intact(f', [i] + oS)
    ensures Recency(f', [i] + oS) == [e] + Recency(f, o)[..|oS|]
  {
    hide Linked, SortedIds, OwnSlices;
    var r, r' := Recency(f, o), Recency(f', [i] + oS);
    forall k | 0 <= k < |oS| + 1 ensures r'[k] == ([e] + r[..|oS|])[k] {
      if k > 0 {
        assert ([i] + oS)[k] == oS[k - 1];
      }
    }
  }

  /** The fields after a full cache has let go of slot `t`, the least recent, and
      put a new entry into slot `i`. */
  ghost predicate FullResult(f: Fields, o: seq<nat>, t: nat, i: nat, e: Entry, f': Fields)
    requires Intact(f, o) && f.cur == |f.bs| && t < |f.bs| && i < |f.bs| && |e.bytes| <= f.size
  {
    var d := f.bs[t].payload.data;
    && |f'.bs| == |f.bs| && f'.cur == f.cur && f'.size == f.size
    && f'.slices == f.slices[d := e.bytes + f.slices[d][|e.bytes|..]]
    && Pays(f'.bs) == (if t <= i then PaysDown(Pays(f.bs), t, i) else Pays(f.bs))[i := Payload(e.id, d, |e.bytes|)]
    && (t <= i ==> Linked(f'.bs, [i] + Down(o[..|o| - 1], t, i), f'.head, f'.tail))
  }

  lemma FullResultIs(f: Fields, o: seq<nat>, t: nat, i: nat, e: Entry, f': Fields)
    requires Intact(f, o) && f.cur == |f.bs| && t < |f.bs| && i < |f.bs| && |e.bytes| <= f.size
    requires |f'.bs| == |f.bs| && f'.cur == f.cur && f'.size == f.size
    requires var d := f.bs[t].payload.data; f'.slices == f.slices[d := e.bytes + f.slices[d][|e.bytes|..]]
    requires Pays(f'.bs) == (if t <= i then PaysDown(Pays(f.bs), t, i) else Pays(f.bs))
                              [i := Payload(e.id, f.bs[t].payload.data, |e.bytes|)]
    requires t <= i ==> Linked(f'.bs, [i] + Down(o[..|o| - 1], t, i), f'.head, f'.tail)
    ensures FullResult(f, o, t, i, e, f')
  {
  }

  lemma FullList(f: Fields, o: seq<nat>, t: nat, i: nat, f': Fields)
    requires ListIs(f, o) && f.cur == |f.bs| == |f'.bs| == f'.cur && 2 <= f.cur && t == o[|o| - 1] && t <= i < f.cur
    requires Linked(f'.bs, [i] + Down(o[..|o| - 1], t, i), f'.head, f'.tail)
    ensures ListIs(f', [i] + Down(o[..|o| - 1], t, i))
  {
    var n := |o|;
    assert Distinct(o);
    hide Linked;
    var oS := Down(o[..n - 1], t, i);
    var o' := [i] + oS;
    forall s | 0 <= s < f.cur ensures s in o' {
      if s == i {
        assert o'[0] == s;
      } else {
        var s0 := if t <= s < i then s + 1 else s;
        assert s0 in o;
        var k :| 0 <= k < n && o[k] == s0;
        assert k < n - 1 && oS[k] == s && o'[k + 1] == s;
      }
    }
  }

  lemma FullPayloads(f: Fields, o: seq<nat>, t: nat, i: nat, i0: nat, e: Entry, f': Fields)
    requires Intact(f, o) && f.cur == |f.bs| && 2 <= f.cur && t == o[|o| - 1] && t <= i && |e.bytes| <= f.size
    requires InsertAt(f, e.id, i0) && i == Min(i0, f.cur - 1) && (i0 == f.cur || i == t)
    requires FullResult(f, o, t, i, e, f')
    ensures Shape(f') && SortedIds(f') && OwnSlices(f')
  {
    hide Linked, ListIs;
    PaysDownAt(Pays(f.bs), t, i);
    hide PaysDown;
    forall a, b | 0 <= a < b < f.cur
      ensures f'.bs[a].payload.id < f'.bs[b].payload.id && f'.bs[a].payload.data != f'.bs[b].payload.data
    {
      FullAt(f, o, t, i, e, f', a);
      FullAt(f, o, t, i, e, f', b);
    }
    forall s | 0 <= s < f.cur ensures f'.bs[s].payload.data < |f'.slices| && f'.bs[s].payload.size <= f'.size {
      FullAt(f, o, t, i, e, f', s);
    }
  }

  /** What a slot holds after a full cache has shifted its blocks. */
  lemma FullAt(f: Fields, o: seq<nat>, t: nat, i: nat, e: Entry, f': Fields, s: nat)
    requires Intact(f, o) && f.cur == |f.bs| && t <= i < |f.bs| && |e.bytes| <= f.size && s < f.cur
    requires FullResult(f, o, t, i, e, f')
    ensures FromDown(t, i, s) < f.cur || s == i
    ensures f'.bs[s].payload ==
      if s == i then Payload(e.id, f.bs[t].payload.data, |e.bytes|) else f.bs[FromDown(t, i, s)].payload
  {
    hide Linked, ListIs, OwnSlices, SortedIds;
    PaysDownAt(Pays(f.bs), t, i);
    hide PaysDown;
    assert Pays(f'.bs)[s] == f'.bs[s].payload;
  }

  /** A full cache takes an ascending id, or one that belongs where the evicted
      entry was: the least recent entry is gone, all others are kept. */
  lemma FullIntact(f: Fields, o: seq<nat>, t: nat, i: nat, i0: nat, e: Entry, f': Fields)
    requires Intact(f, o) && f.cur == |f.bs| && 2 <= f.cur && t == o[|o| - 1] && t <= i && |e.bytes| <= f.size
    requires InsertAt(f, e.id, i0) && i == Min(i0, f.cur - 1) && (i0 == f.cur || i == t)
    requires FullResult(f, o, t, i, e, f')
    ensures var o' := [i] + Down(o[..|o| - 1], t, i);
      Intact(f', o') && Recency(f', o') == [e] + Recency(f, o)[..|o| - 1]
  {
    FullList(f, o, t, i, f');
    FullPayloads(f, o, t, i, i0, e, f');
    FullInserted(f, o, t, i, e, f');
    hide Inserted, Linked, Down, ListIs, Shape, SortedIds, OwnSlices, FullResult, InsertAt, Recency;
    InsertedRecency(f, o, f', Down(o[..|o| - 1], t, i), i, e, f.bs[t].payload.data);
  }

  lemma FullInserted(f: Fields, o: seq<nat>, t: nat, i: nat, e: Entry, f': Fields)
    requires Intact(f, o) && f.cur == |f.bs| && 2 <= f.cur && t == o[|o| - 1] && t <= i < f.cur && |e.bytes| <= f.size
    requires FullResult(f, o, t, i, e, f')
    ensures Inserted(f, o, f', Down(o[..|o| - 1], t, i), i, e, f.bs[t].payload.data)
  {
    var oS := Down(o[..|o| - 1], t, i);
    FullAt(f, o, t, i, e, f', i);
    hide Intact, Down;
    forall k | 0 <= k < |oS|
      ensures oS[k] < |f'.bs| && f'.bs[oS[k]].payload == f.bs[o[k]].payload
              && f.bs[o[k]].payload.data != f.bs[t].payload.data
    {
      FullKept(f, o, t, i, e, f', k);
    }
  }

  /** An entry that stays keeps its payload, wherever its slot is now. */
  lemma FullKept(f: Fields, o: seq<nat>, t: nat, i: nat, e: Entry, f': Fields, k: nat)
    requires Intact(f, o) && f.cur == |f.bs| && 2 <= f.cur && t == o[|o| - 1] && t <= i < f.cur && |e.bytes| <= f.size
    requires FullResult(f, o, t, i, e, f') && k < |o| - 1
    ensures o[k] < |f.bs| && f.bs[o[k]].payload.data != f.bs[t].payload.data
    ensures var s := Down(o[..|o| - 1], t, i)[k]; s < |f'.bs| && f'.bs[s].payload == f.bs[o[k]].payload
  {
    OtherSlice(f, o, k, t);
    hide Intact, FullResult;
    DownFrom(o[..|o| - 1], t, i, k);
    hide Down, FromDown;
    FullAt(f, o, t, i, e, f', Down(o[..|o| - 1], t, i)[k]);
  }

  /** Slots that differ have data that differ. */
  lemma OtherSlice(f: Fields, o: seq<nat>, k: nat, t: nat)
    requires Intact(f, o) && k < |o| - 1 && t == o[|o| - 1]
    ensures o[k] < f.cur <= |f.bs| && t < f.cur && o[k] != t
    ensures f.bs[o[k]].payload.data != f.bs[t].payload.data
  {
    assert o[k] != o[|o| - 1];
  }

  /** Any other insertion into a full cache breaks the order of the array or
      makes two slots share their data. */
  lemma FullBroken(f: Fields, o: seq<nat>, t: nat, i: nat, e: Entry, f': Fields, o': seq<nat>)
    requires Intact(f, o) && f.cur == |f.bs| && 2 <= f.cur && t == o[|o| - 1] && |e.bytes| <= f.size
    requires InsertAt(f, e.id, i) && i < f.cur && i != t
    requires FullResult(f, o, t, i, e, f')
    ensures !Intact(f', o')
  {
    assert t < f.cur;
    hide Linked, ListIs;
    if t < i {
      FullAt(f, o, t, i, e, f', i - 1);
      FullAt(f, o, t, i, e, f', i);
      assert f'.bs[i].payload.id < f'.bs[i - 1].payload.id;
    } else {
      assert Pays(f'.bs)[i].data == Pays(f'.bs)[t].data;
      assert f'.bs[i].payload.data == f'.bs[t].payload.data;
    }
  }

  /** The fields after a cache with room has put a new entry into slot `i`. */
  ghost predicate FreeResult(f: Fields, o: seq<nat>, i: nat, e: Entry, f': Fields)
    requires Intact(f, o) && i <= f.cur < |f.bs| && |e.bytes| <= f.size
  {
    var n := f.cur;
    var d := f.bs[n].payload.data;
    && |f'.bs| == |f.bs| && f'.cur == n + 1 && f'.size == f.size && f'.head == i
    && f'.slices == f.slices[d := e.bytes + f.slices[d][|e.bytes|..]]
    && Pays(f'.bs) == PaysUp(Pays(f.bs), i, n)[i := Payload(e.id, d, |e.bytes|)]
    && f'.bs[n + 1..] == f.bs[n + 1..]
    && (i == n || i == f.head ==> Linked(f'.bs, [i] + Up(o, i, n), f'.head, f'.tail))
    && (i != n && i != f.head ==> f'.bs[i].prev != NULL)
  }

  /** What a slot holds after a cache with room has shifted its blocks. */
  lemma FreeAt(f: Fields, o: seq<nat>, i: nat, e: Entry, f': Fields, s: nat)
    requires Intact(f, o) && i <= f.cur < |f.bs| && |e.bytes| <= f.size && s < |f.bs|
    requires FreeResult(f, o, i, e, f')
    ensures FromUp(i, f.cur, s) < |f.bs|
    ensures f'.bs[s].payload ==
      if s == i then Payload(e.id, f.bs[f.cur].payload.data, |e.bytes|) else f.bs[FromUp(i, f.cur, s)].payload
  {
    hide Linked, ListIs, OwnSlices, SortedIds;
    PaysUpAt(Pays(f.bs), i, f.cur);
    hide PaysUp;
    assert Pays(f'.bs)[s] == f'.bs[s].payload;
  }

  lemma FreeList(f: Fields, o: seq<nat>, i: nat, f': Fields)
    requires ListIs(f, o) && i <= f.cur < |f.bs| == |f'.bs| && f'.cur == f.cur + 1 && f'.bs[f.cur + 1..] == f.bs[f.cur + 1..]
    requires Linked(f'.bs, [i] + Up(o, i, f.cur), f'.head, f'.tail)
    ensures ListIs(f', [i] + Up(o, i, f.cur))
  {
    hide Linked;
    var n := f.cur;
    var oS := Up(o, i, n);
    var o' := [i] + oS;
    forall s | 0 <= s < n + 1 ensures s in o' {
      if s == i {
        assert o'[0] == s;
      } else {
        var s0 := if i < s then s - 1 else s;
        assert s0 in o;
        var k :| 0 <= k < n && o[k] == s0;
        assert oS[k] == s && o'[k + 1] == s;
      }
    }
    forall s | n + 1 <= s < |f.bs| ensures f'.bs[s].next == NULL && f'.bs[s].prev == NULL {
      assert f'.bs[s] == f'.bs[n + 1..][s - n - 1] == f.bs[n + 1..][s - n - 1] == f.bs[s];
    }
  }

  lemma FreePayloads(f: Fields, o: seq<nat>, i: nat, e: Entry, f': Fields)
    requires Intact(f, o) && i <= f.cur < |f.bs| && |e.bytes| <= f.size
    requires InsertAt(f, e.id, i) && FreeResult(f, o, i, e, f')
    ensures Shape(f') && SortedIds(f') && OwnSlices(f')
  {
    hide Linked, ListIs;
    hide PaysUp;
    forall a, b | 0 <= a < b < |f.bs|
      ensures (b < f'.cur ==> f'.bs[a].payload.id < f'.bs[b].payload.id) && f'.bs[a].payload.data != f'.bs[b].payload.data
    {
      FreeAt(f, o, i, e, f', a);
      FreeAt(f, o, i, e, f', b);
    }
    forall s | 0 <= s < |f.bs|
      ensures f'.bs[s].payload.data < |f'.slices| && (s < f'.cur ==> f'.bs[s].payload.size <= f'.size)
    {
      FreeAt(f, o, i, e, f', s);
    }
  }

  lemma FreeInserted(f: Fields, o: seq<nat>, i: nat, e: Entry, f': Fields)
    requires Intact(f, o) && i <= f.cur < |f.bs| && |e.bytes| <= f.size
    requires FreeResult(f, o, i, e, f')
    ensures Inserted(f, o, f', Up(o, i, f.cur), i, e, f.bs[f.cur].payload.data)
  {
    var oS := Up(o, i, f.cur);
    FreeAt(f, o, i, e, f', i);
    hide Intact, Up;
    forall k | 0 <= k < |oS|
      ensures oS[k] < |f'.bs| && f'.bs[oS[k]].payload == f.bs[o[k]].payload
              && f.bs[o[k]].payload.data != f.bs[f.cur].payload.data
    {
      FreeKept(f, o, i, e, f', k);
    }
  }

  lemma FreeKept(f: Fields, o: seq<nat>, i: nat, e: Entry, f': Fields, k: nat)
    requires Intact(f, o) && i <= f.cur < |f.bs| && |e.bytes| <= f.size
    requires FreeResult(f, o, i, e, f') && k < |o|
    ensures o[k] < |f.bs| && f.bs[o[k]].payload.data != f.bs[f.cur].payload.data
    ensures var s := Up(o, i, f.cur)[k]; s < |f'.bs| && f'.bs[s].payload == f.bs[o[k]].payload
  {
    assert o[k] < f.cur;
    hide Linked, SortedIds, ListIs;
    FreeAt(f, o, i, e, f', Up(o, i, f.cur)[k]);
  }

  /** A cache with room takes an ascending id, or one that goes right before the
      most recent entry; every entry is kept. */
  lemma FreeIntact(f: Fields, o: seq<nat>, i: nat, e: Entry, f': Fields)
    requires Intact(f, o) && i <= f.cur < |f.bs| && |e.bytes| <= f.size
    requires InsertAt(f, e.id, i) && FreeResult(f, o, i, e, f') && (i == f.cur || i == f.head)
    ensures var o' := [i] + Up(o, i, f.cur); Intact(f', o') && Recency(f', o') == [e] + Recency(f, o)
  {
    FreeList(f, o, i, f');
    FreePayloads(f, o, i, e, f');
    FreeInserted(f, o, i, e, f');
    hide Inserted, Linked, Up, ListIs, Shape, SortedIds, OwnSlices, FreeResult, InsertAt, Recency;
    InsertedRecency(f, o, f', Up(o, i, f.cur), i, e, f.bs[f.cur].payload.data);
    assert Recency(f, o)[..f.cur] == Recency(f, o);
  }

  /** Any other insertion leaves the head of the list with a predecessor. */
  lemma FreeBroken(f: Fields, o: seq<nat>, i: nat, e: Entry, f': Fields, o': seq<nat>)
    requires Intact(f, o) && i < f.cur < |f.bs| && |e.bytes| <= f.size
    requires FreeResult(f, o, i, e, f') && i != f.head
    ensures !Intact(f', o')
  {
    hide Shape, SortedIds, OwnSlices, Pays, PaysUp;
    HeadIsFirst(f', o');
  }

  lemma HeadIsFirst(f: Fields, o: seq<nat>)
    ensures ListIs(f, o) && 0 < f.cur ==> 0 <= f.head < |f.bs| && f.bs[f.head].prev == NULL
  {
    if ListIs(f, o) && 0 < f.cur {
      assert LinkOk(f.bs, o, 0);
    }
  }

  /** Overwriting the most recent entry with new data under the same id. */
  lemma WriteIntact(f: Fields, o: seq<nat>, s: nat, e: Entry)
    requires Intact(f, o) && s < f.cur && f.head == s && f.bs[s].payload.id == e.id && |e.bytes| <= f.size
    ensures var f' := Write(f, s, e.id, e.bytes);
      o[0] == s && Intact(f', o) && Recency(f', o) == [e] + Recency(f, o)[1..]
  {
    var f' := Write(f, s, e.id, e.bytes);
    LastSlot(f.bs, o, f.head, f.tail);
    PayloadLinked(f.bs, o, f.head, f.tail, s, f'.bs[s].payload);
    assert forall k | 0 < k < |o| :: o[k] != o[0];
    hide Linked;
    forall k | 0 <= k < f.cur ensures Recency(f', o)[k] == ([e] + Recency(f, o)[1..])[k] {
    }
  }

  lemma TailIs(f: Fields, o: seq<nat>)
    requires Intact(f, o) && 0 < f.cur
    ensures |o| == f.cur <= |f.bs| && f.tail == o[|o| - 1]
  {
  }

  /** What an insertion of `e` leads to. */
  ghost predicate Outcome(f: Fields, o: seq<nat>, e: Entry, f': Fields, o': seq<nat>)
    requires Intact(f, o)
  {
    && f.cur <= |f.bs|
    && (Safe(f, e.id) ==> Intact(f', o') && AfterPut(Recency(f, o), e, |f.bs|, Recency(f', o')))
    && (!Safe(f, e.id) ==> forall q :: !Intact(f', q))
  }

  /** Both outcomes of an insertion into a full cache; `o'` is the new list of
      use when there is one. */
  lemma FullDecides(f: Fields, o: seq<nat>, t: nat, i: nat, i0: nat, e: Entry, f': Fields) returns (o': seq<nat>)
    requires Intact(f, o) && f.cur == |f.bs| && 2 <= f.cur && t == f.tail && t < f.cur && |e.bytes| <= f.size
    requires InsertAt(f, e.id, i0) && i == (if i0 == f.cur then f.cur - 1 else i0) && FullResult(f, o, t, i, e, f')
    ensures Outcome(f, o, e, f', o')
  {
    hide Intact, Linked, Down, Safe, InsertAt, FullResult, Recency, Holds;
    TailIs(f, o);
    HoldsNot(f, o, e.id, i0);
    SafeAt(f, e.id, i0);
    o' := [i] + Down(o[..|o| - 1], t, i);
    if i0 == f.cur || i0 == t {
      FullIntact(f, o, t, i, i0, e, f');
    } else {
      forall q ensures !Intact(f', q) { FullBroken(f, o, t, i, e, f', q); }
    }
  }

  lemma FreeDecides(f: Fields, o: seq<nat>, i: nat, e: Entry, f': Fields) returns (o': seq<nat>)
    requires Intact(f, o) && f.cur < |f.bs| && |e.bytes| <= f.size && i <= f.cur
    requires InsertAt(f, e.id, i) && FreeResult(f, o, i, e, f')
    ensures Outcome(f, o, e, f', o')
  {
    hide Intact, Linked, Up, Safe, InsertAt, FreeResult, Recency, Holds;
    FreeCur(f, o);
    HoldsNot(f, o, e.id, i);
    SafeAt(f, e.id, i);
    o' := [i] + Up(o, i, f.cur);
    if i == f.cur || i == f.head {
      FreeIntact(f, o, i, e, f');
    } else {
      forall q ensures !Intact(f', q) { FreeBroken(f, o, i, e, f', q); }
    }
  }

  class Lru {
    const blocks: array<Block>
    const slices: array<seq<byte>>
    const maxBlocks: nat
    const blockSize: nat
    var head: int
    var tail: int
    var curBlocks: nat
    ghost var order: seq<nat>

    ghost function View(): Fields
      reads this, blocks, slices
    {
      Fields(blocks[..], slices[..], head, tail, curBlocks, blockSize)
    }

    ghost predicate Valid()
      reads this, blocks, slices
    {
      blocks.Length == maxBlocks && slices.Length == maxBlocks && Intact(View(), order)
    }

    /** The entries, most recently used first. */
    ghost function Entries(): seq<Entry>
      requires Valid()
      reads this, blocks, slices
    {
      Recency(View(), order)
    }

    /** `lru_cache_init`. */
    constructor (n: nat, size: nat)
      requires 0 < n && 0 < size
      ensures Valid() && maxBlocks == n && blockSize == size && Entries() == []
      ensures fresh(blocks) && fresh(slices)
    {
      maxBlocks, blockSize := n, size;
      blocks := new Block[n](i requires 0 <= i => Block(Payload(0, i, 0), NULL, NULL));
      slices := new seq<byte>[n](i => seq(size, j => 0));
      head, tail, curBlocks, order := NULL, NULL, 0, [];
    }

    /** Binary search; a miss gives `-(insertion point) - 1`. */
    method FindBlock(id: nat) returns (r: int)
      requires Valid()
      ensures r >= 0 ==> r < curBlocks && blocks[r].payload.id == id
      ensures r < 0 ==> InsertAt(View(), id, -(r + 1))
    {
      hide ListIs, OwnSlices;
      var low, high := 0, curBlocks - 1;
      while low <= high
        invariant 0 <= low <= curBlocks && -1 <= high < curBlocks && low <= high + 1
        invariant forall s | 0 <= s < low :: blocks[s].payload.id < id
        invariant forall s | high < s < curBlocks :: id < blocks[s].payload.id
      {
        var mid := (low + high) / 2;
        assert SortedIds(View());
        var found := blocks[mid].payload.id;
        if found < id {
          low := mid + 1;
        } else if found > id {
          high := mid - 1;
        } else {
          return mid;
        }
      }
      return -low - 1;
    }

    /** Unlink slot `i`, which is not the head, and put it in front. */
    method MoveToFront(i: nat) returns (ghost k: nat)
      requires Valid() && i < curBlocks && i != head
      modifies this`head, this`tail, this`order, blocks
      ensures Valid() && head == i && Pays(blocks[..]) == old(Pays(blocks[..]))
      ensures k < curBlocks == old(curBlocks) && old(Entries())[k].id == old(blocks[i].payload.id)
      ensures Entries() == Used(old(Entries()), k)
    {
      hide Intact;
      ghost var f, o := View(), order;
      ghost var o';
      k, o' := UseSlot(f, o, i);
      var p, n := blocks[i].prev, blocks[i].next;
      if p != NULL { blocks[p] := blocks[p].(next := n); }
      if n != NULL { blocks[n] := blocks[n].(prev := blocks[i].prev); }
      assert blocks[..] == Bypass(f.bs, i);
      if i == tail { tail := p; }
      blocks[i] := blocks[i].(prev := NULL, next := head);
      blocks[head] := blocks[head].(prev := i);
      assert blocks[..] == ToFront(f.bs, f.head, i);
      head := i;
      order := o';
    }

    /** `lru_cache_get`: an entry found becomes the most recently used one. */
    method Get(id: nat) returns (slot: Option<nat>)
      requires Valid()
      modifies this`head, this`tail, this`order, blocks
      ensures Valid() && curBlocks == old(curBlocks)
      ensures slot.Some? <==> Holds(old(Entries()), id)
      ensures AfterGet(old(Entries()), id, Entries())
      ensures slot.Some? ==> slot.value == head && slot.value < curBlocks
    {
      hide Intact, Recency;
      FreeCur(View(), order);
      var i := FindBlock(id);
      if i < 0 {
        HoldsNot(View(), order, id, -(i + 1));
        return None;
      }
      assert View().bs[i] == blocks[i];
      ghost var _ := ExistingAt(View(), order, i, Entry(id, []));
      if i != head {
        ghost var _ := MoveToFront(i);
      }
      slot := Some(i);
    }

    /** `lru_cache_last`: the entry with the highest id. */
    method Last() returns (id: Option<nat>)
      requires Valid()
      ensures id == None <==> Entries() == []
      ensures id.Some? ==> Holds(Entries(), id.value) && forall k | 0 <= k < |Entries()| :: Entries()[k].id <= id.value
    {
      if curBlocks == 0 {
        return None;
      }
      id := Some(blocks[curBlocks - 1].payload.id);
      LastIsHighest(View(), order);
    }

    /** Move the blocks after slot `t` up to slot `i` one slot down. */
    method ShiftLeft(t: nat, i: nat, ghost ord: seq<nat>)
      requires blocks.Length == maxBlocks && t <= i < maxBlocks && t !in ord
      requires Linked(blocks[..], ord, head, tail) && forall s | t < s <= i :: s in ord
      requires forall k | 0 <= k < |ord| :: ord[k] < maxBlocks
      modifies this`head, this`tail, blocks
      ensures Linked(blocks[..], Down(ord, t, i), head, tail)
      ensures Pays(blocks[..]) == PaysDown(old(Pays(blocks[..])), t, i)
    {
      hide Linked, Down, Distinct, Pays, PaysDown;
      ghost var p0 := Pays(blocks[..]);
      var j := t;
      StartDown(blocks[..], ord, head, tail, t);
      while j < i
        invariant t <= j <= i && Linked(blocks[..], Down(ord, t, j), head, tail)
        invariant Pays(blocks[..]) == PaysDown(p0, t, j)
      {
        assert j + 1 in ord;
        ghost var k := DownStepAt(ord, t, j, maxBlocks);
        PaysDownStep(p0, t, j);
        MoveBlock(j + 1, j, Down(ord, t, j), k, maxBlocks);
        j := j + 1;
      }
    }

    /** One round of either shifting loop: copy a block, then repair the links
        of its neighbours and the ends of the list. */
    method MoveBlock(from: nat, to: nat, ghost ord: seq<nat>, ghost k: nat, ghost n: nat)
      requires blocks.Length == maxBlocks && from < maxBlocks && to < maxBlocks && to !in ord
      requires to < n <= maxBlocks && forall i | 0 <= i < |ord| :: ord[i] < n
      requires Linked(blocks[..], ord, head, tail) && k < |ord| && ord[k] == from
      modifies this`head, this`tail, blocks
      ensures Linked(blocks[..], ord[k := to], head, tail)
      ensures Pays(blocks[..]) == old(Pays(blocks[..]))[to := old(Pays(blocks[..])[from])]
      ensures blocks[n..] == old(blocks[n..]) && blocks[from] == old(blocks[from])
    {
      hide Linked, Pays;
      ghost var bs := blocks[..];
      MoveAll(bs, ord, head, tail, k, to, n);
      blocks[to] := blocks[from];
      ghost var b0 := blocks[..];
      var p, q := blocks[to].prev, blocks[to].next;
      if p != NULL { blocks[p] := blocks[p].(next := to); }
      if q != NULL { blocks[q] := blocks[q].(prev := to); }
      assert blocks[..] == Repair(b0, to);
      if head == from { head := to; }
      if tail == from { tail := to; }
    }

    /** Move the blocks of slots `i` to `n - 1` one slot up. Slot `i` keeps its
        old links. */
    method ShiftRight(i: nat, n: nat, ghost ord: seq<nat>)
      requires blocks.Length == maxBlocks && i <= n < maxBlocks && (forall k | 0 <= k < |ord| :: ord[k] < n)
      requires Linked(blocks[..], ord, head, tail) && forall s | i <= s < n :: s in ord
      modifies this`head, this`tail, blocks
      ensures Linked(blocks[..], Up(ord, i, n), head, tail)
      ensures Pays(blocks[..]) == PaysUp(old(Pays(blocks[..])), i, n)
      ensures blocks[n + 1..] == old(blocks[n + 1..])
      ensures if i < n then blocks[i].prev == NULL <==> At(ord, 0) == i else blocks[n] == old(blocks[n])
    {
      hide Linked, Distinct, Pays, PaysUp, Up, At;
      ghost var p0, rest, free := Pays(blocks[..]), blocks[n + 1..], blocks[n];
      var j := n;
      StartUp(blocks[..], ord, head, tail, n);
      while j > i
        invariant i <= j <= n && Linked(blocks[..], Up(ord, j, n), head, tail)
        invariant Pays(blocks[..]) == PaysUp(p0, j, n)
        invariant blocks[n + 1..] == rest
        invariant if j < n then blocks[j].prev == NULL <==> At(ord, 0) == j else blocks[n] == free
      {
        assert j - 1 in ord;
        ghost var k := UpStepAt(blocks[..], ord, head, tail, j, n);
        PaysUpStep(p0, j, n);
        ghost var at := Up(ord, j, n);
        MoveBlock(j - 1, j, at, k, n + 1);
        j := j - 1;
      }
    }

    /** The common end of `lru_cache_put`: slot `i` heads the list, and its data,
        id and size are overwritten. */
    method Overwrite(i: nat, e: Entry)
      requires blocks.Length == slices.Length == maxBlocks && i < maxBlocks
      requires blocks[i].payload.data < maxBlocks && |e.bytes| <= |slices[blocks[i].payload.data]|
      modifies this`head, blocks, slices
      ensures View() == Write(old(View()), i, e.id, e.bytes).(head := i)
    {
      head := i;
      var d := blocks[i].payload.data;
      slices[d] := e.bytes + slices[d][|e.bytes|..];
      blocks[i] := blocks[i].(payload := blocks[i].payload.(id := e.id));
      blocks[i] := blocks[i].(payload := blocks[i].payload.(size := |e.bytes|));
    }

    /** The branch of `lru_cache_put` for a full cache: the least recent slot `t`
        gives up its data, the blocks in between shift, slot `i` is free. */
    method PlaceFull(i: nat, e: Entry) returns (ghost t: nat)
      requires Valid() && 2 <= curBlocks == maxBlocks && i < maxBlocks && |e.bytes| <= blockSize
      modifies this`head, this`tail, blocks, slices
      ensures blocks.Length == slices.Length == maxBlocks && t < maxBlocks && t == old(tail)
      ensures FullResult(old(View()), old(order), t, i, e, View()) && head == i
    {
      hide Linked, Down, PaysDown, Intact, Pays, FullResult;
      FreeCur(View(), order);
      ghost var f, p0 := View(), Pays(blocks[..]);
      ghost var o := order[..curBlocks - 1];
      var last, staleData := DropTail();
      t := last;
      StartDown(blocks[..], o, head, tail, t);
      if last < i {
        ShiftLeft(last, i, o);
      }
      if t <= i { DownHole(o, t, i); }
      ghost var pS := if t <= i then PaysDown(p0, t, i) else p0;
      FillFull(i, staleData, e, if t <= i then Down(o, t, i) else o, pS, t <= i);
      FullResultIs(f, order, t, i, e, View());
    }

    /** Detach the least recent slot of a full cache. */
    method DropTail() returns (last: nat, staleData: nat)
      requires Valid() && 2 <= curBlocks == maxBlocks
      modifies this`tail, blocks
      ensures blocks.Length == slices.Length == maxBlocks && |order| == curBlocks
      ensures last < maxBlocks && last == old(tail) == order[curBlocks - 1]
      ensures staleData == old(blocks[..])[last].payload.data < maxBlocks && |slices[staleData]| == blockSize
      ensures Linked(blocks[..], order[..curBlocks - 1], head, tail)
      ensures Pays(blocks[..]) == Pays(old(blocks[..]))
      ensures var o := order[..curBlocks - 1];
        last !in o && (forall k | 0 <= k < |o| :: o[k] < maxBlocks) && (forall s | 0 <= s < maxBlocks && s != last :: s in o)
    {
      ghost var f, o := View(), order;
      LastSlot(f.bs, o, head, tail);
      DropLastLinked(f.bs, o, head, tail);
      ghost var o' := o[..curBlocks - 1];
      forall s | 0 <= s < maxBlocks && s != tail ensures s in o' {
        assert s in o;
        InPrefix(o, s);
      }
      hide Linked;
      last := tail;
      staleData := blocks[last].payload.data;
      var p := blocks[last].prev;
      blocks[p] := blocks[p].(next := NULL);
      tail := p;
      assert blocks[..] == f.bs[p := f.bs[p].(next := NULL)];
    }

    method FillFull(i: nat, staleData: nat, e: Entry, ghost oS: seq<nat>, ghost pS: seq<Payload>, ghost hole: bool)
      requires blocks.Length == slices.Length == maxBlocks && i < maxBlocks && staleData < maxBlocks
      requires |e.bytes| <= |slices[staleData]| && Linked(blocks[..], oS, head, tail) && oS != []
      requires Pays(blocks[..]) == pS && (hole ==> i !in oS)
      modifies this`head, blocks, slices
      ensures head == i && (hole ==> Linked(blocks[..], [i] + oS, head, tail))
      ensures Pays(blocks[..]) == pS[i := Payload(e.id, staleData, |e.bytes|)]
      ensures slices[..] == old(slices[..])[staleData := e.bytes + old(slices[staleData])[|e.bytes|..]]
    {
      ghost var bs, h := blocks[..], head;
      LastSlot(bs, oS, head, tail);
      ghost var q := Payload(e.id, staleData, |e.bytes|);
      ghost var b1 := bs[i := Block(bs[i].payload.(data := staleData), h, NULL)];
      ghost var b2 := b1[h := b1[h].(prev := i)];
      if hole { FrontLinked(bs, oS, h, tail, i, bs[i].payload.(data := staleData), q); }
      hide Linked;
      blocks[i] := blocks[i].(payload := blocks[i].payload.(data := staleData));
      blocks[i] := blocks[i].(next := head);
      blocks[i] := blocks[i].(prev := NULL);
      blocks[head] := blocks[head].(prev := i);
      assert blocks[..] == b2;
      Overwrite(i, e);
      assert blocks[..] == b2[i := b2[i].(payload := q)];
    }

    /** The branch of `lru_cache_put` for a cache with room. */
    method PlaceFree(i: nat, e: Entry)
      requires Valid() && i <= curBlocks < maxBlocks && |e.bytes| <= blockSize
      modifies this`head, this`tail, this`curBlocks, blocks, slices
      ensures blocks.Length == slices.Length == maxBlocks
      ensures FreeResult(old(View()), old(order), i, e, View())
    {
      ghost var f, p0, n := View(), Pays(blocks[..]), curBlocks;
      if curBlocks > 0 {
        var staleData := blocks[curBlocks].payload.data;
        LastSlot(f.bs, order, head, tail);
        assert |slices[staleData]| == blockSize;
        assert f.bs[n].prev == NULL;
        hide Linked;
        ShiftRight(i, curBlocks, order);
        UpHole(order, i, n);
        FillFree(i, staleData, e, Up(order, i, n), PaysUp(p0, i, n), n + 1);
      } else {
        tail := i;
        curBlocks := curBlocks + 1;
        Overwrite(i, e);
        FirstLinked(blocks[..], i);
        assert PaysUp(p0, 0, 0) == p0;
      }
    }

    method FillFree(i: nat, staleData: nat, e: Entry, ghost oS: seq<nat>, ghost pS: seq<Payload>, ghost n: nat)
      requires blocks.Length == slices.Length == maxBlocks && i < n <= maxBlocks && staleData < maxBlocks
      requires |e.bytes| <= |slices[staleData]| && Linked(blocks[..], oS, head, tail) && oS != [] && i !in oS
      requires Pays(blocks[..]) == pS && forall k | 0 <= k < |oS| :: oS[k] < n
      modifies this`head, this`curBlocks, blocks, slices
      ensures head == i && curBlocks == old(curBlocks) + 1 && blocks[i].prev == old(blocks[i].prev)
      ensures blocks[i].prev == NULL ==> Linked(blocks[..], [i] + oS, head, tail)
      ensures Pays(blocks[..]) == pS[i := Payload(e.id, staleData, |e.bytes|)] && blocks[n..] == old(blocks[n..])
      ensures slices[..] == old(slices[..])[staleData := e.bytes + old(slices[staleData])[|e.bytes|..]]
    {
      ghost var bs, h := blocks[..], head;
      LastSlot(bs, oS, head, tail);
      ghost var q := Payload(e.id, staleData, |e.bytes|);
      ghost var b1 := bs[i := Block(bs[i].payload.(data := staleData), h, bs[i].prev)];
      ghost var b2 := b1[h := b1[h].(prev := i)];
      FrontLinked(bs, oS, h, tail, i, bs[i].payload.(data := staleData), q);
      hide Linked;
      blocks[i] := blocks[i].(payload := blocks[i].payload.(data := staleData));
      blocks[i] := blocks[i].(next := head);
      blocks[head] := blocks[head].(prev := i);
      assert blocks[..] == b2;
      curBlocks := curBlocks + 1;
      Overwrite(i, e);
      assert blocks[..] == b2[i := b2[i].(payload := q)];
    }

    /** The branch of `lru_cache_put` for an id that is cached already. */
    method PutExisting(i: nat, e: Entry)
      requires Valid() && i < curBlocks && blocks[i].payload.id == e.id && |e.bytes| <= blockSize
      modifies this`head, this`tail, this`order, blocks, slices
      ensures Valid() && head == i && Holds(old(Entries()), e.id)
      ensures AfterPut(old(Entries()), e, maxBlocks, Entries())
    {
      hide Intact, Pays, Recency, AfterPut, Holds;
      ghost var r, f, o := Entries(), View(), order;
      FreeCur(f, o);
      assert f.bs[i] == blocks[i];
      ghost var k := ExistingAt(f, o, i, e);
      if i != head { k := MoveToFront(i); }
      PaysAt(f.bs, blocks[..], i);
      assert View().bs[i] == blocks[i];
      ghost var _ := ExistingAt(View(), order, i, e);
      WriteIntact(View(), order, i, e);
      Overwrite(i, e);
      AfterPutExisting(r, k, e, maxBlocks);
    }

    method PutFull(i0: nat, e: Entry) returns (slot: nat)
      requires Valid() && 2 <= curBlocks == maxBlocks && |e.bytes| <= blockSize && InsertAt(View(), e.id, i0)
      modifies this, blocks, slices
      ensures blocks.Length == slices.Length == maxBlocks
      ensures Outcome(old(View()), old(order), e, View(), order)
      ensures slot == head && slot < curBlocks <= maxBlocks
    {
      ghost var f, o := View(), order;
      var i := if i0 == maxBlocks then maxBlocks - 1 else i0;
      FreeCur(f, o);
      hide Intact, Linked, Safe, InsertAt, FullResult, Outcome, Pays;
      ghost var t := PlaceFull(i, e);
      order := FullDecides(f, o, t, i, i0, e, View());
      slot := i;
    }

    method PutFree(i: nat, e: Entry) returns (slot: nat)
      requires Valid() && curBlocks < maxBlocks && |e.bytes| <= blockSize && InsertAt(View(), e.id, i)
      modifies this, blocks, slices
      ensures blocks.Length == slices.Length == maxBlocks
      ensures Outcome(old(View()), old(order), e, View(), order)
      ensures slot == head && slot < curBlocks <= maxBlocks
    {
      ghost var f, o := View(), order;
      FreeCur(f, o);
      hide Intact, Linked, Safe, InsertAt, FreeResult, Outcome;
      PlaceFree(i, e);
      order := FreeDecides(f, o, i, e, View());
      slot := i;
    }

    /** `lru_cache_put`. Insertion keeps the cache intact exactly when it is
        `Safe`; then the entry becomes the most recent, and a full cache loses
        its least recent entry and no other. */
    method Put(id: nat, bytes: seq<byte>) returns (slot: nat)
      requires Valid() && |bytes| <= blockSize && 0 < maxBlocks
      requires curBlocks == maxBlocks ==> 2 <= maxBlocks
      modifies this, blocks, slices
      ensures blocks.Length == slices.Length == maxBlocks
      ensures old(Safe(View(), id)) ==> Valid() && AfterPut(old(Entries()), Entry(id, bytes), maxBlocks, Entries())
      ensures !old(Safe(View(), id)) ==> forall o :: !Intact(View(), o)
      ensures slot == head && slot < curBlocks <= maxBlocks
    {
      FreeCur(View(), order);
      hide Intact, AfterPut, Safe;
      var i := FindBlock(id);
      if i < 0 {
        i := -(i + 1);
        if curBlocks == maxBlocks {
          slot := PutFull(i, Entry(id, bytes));
        } else {
          slot := PutFree(i, Entry(id, bytes));
        }
      } else {
        assert View().bs[i] == blocks[i];
        PresentSafe(View(), order, id, i);
        PutExisting(i, Entry(id, bytes));
        slot := i;
      }
    }
  }

  /** A cache of `n` blocks with two ids, the lower one used last. */
  method TwoCached(n: nat) returns (c: Lru)
    requires 2 <= n
    ensures fresh(c) && fresh(c.blocks) && fresh(c.slices) && c.Valid() && c.maxBlocks == n && c.blockSize == 1
    ensures |c.Entries()| == 2 && c.Entries()[0].id == 10 && c.Entries()[1].id == 20
  {
    hide Intact, Recency, Safe;
    c := new Lru(n, 1);
    AscendingSafe(c.View(), c.order, 10);
    FreeCur(c.View(), c.order);
    var _ := c.Put(10, [1]);
    assert c.Entries() == [Entry(10, [1])];
    AscendingSafe(c.View(), c.order, 20);
    FreeCur(c.View(), c.order);
    var _ := c.Put(20, [2]);
    assert c.Entries() == [Entry(20, [2]), Entry(10, [1])];
    assert Holds(c.Entries(), 10) by { assert c.Entries()[1].id == 10; }
    var _ := c.Get(10);
  }

  lemma TwoSlots(f: Fields, o: seq<nat>)
    requires Intact(f, o) && f.cur == 2 && Recency(f, o)[0].id == 10 && Recency(f, o)[1].id == 20
    ensures f.bs[0].payload.id == 10 && f.bs[1].payload.id == 20 && f.head == 0 && f.tail == 1
  {
    assert LinkOk(f.bs, o, 0) && LinkOk(f.bs, o, 1);
  }

  /** An id between the two, put into a cache with room for it: the head of the
      list is left with a predecessor. */
  method MiddleBreaksFree() returns (c: Lru)
    ensures forall o :: !Intact(c.View(), o)
  {
    hide Intact, Recency;
    c := TwoCached(3);
    TwoSlots(c.View(), c.order);
    FreeCur(c.View(), c.order);
    assert InsertAt(c.View(), 15, 1) && !Safe(c.View(), 15);
    var _ := c.Put(15, [3]);
  }

  /** An id below the two, put into a cache that is full: slots share data. */
  method LowBreaksFull() returns (c: Lru)
    ensures forall o :: !Intact(c.View(), o)
  {
    hide Intact, Recency;
    c := TwoCached(2);
    TwoSlots(c.View(), c.order);
    FreeCur(c.View(), c.order);
    assert InsertAt(c.View(), 5, 0) && !Safe(c.View(), 5);
    var _ := c.Put(5, [3]);
  }

  /** A cached id is always safe. */
  lemma PresentSafe(f: Fields, o: seq<nat>, id: nat, s: nat)
    requires Intact(f, o) && s < f.cur && f.bs[s].payload.id == id
    ensures f.cur <= |f.bs| && Safe(f, id)
  {
    forall i: nat | i <= f.cur ensures !InsertAt(f, id, i) {
      assert f.bs[s].payload.id == id;
    }
  }

  lemma FreeCur(f: Fields, o: seq<nat>)
    requires Intact(f, o)
    ensures f.cur <= |f.bs| && |o| == f.cur && |f.slices| == |f.bs|
  {
  }

  lemma PaysAt(a: seq<Block>, b: seq<Block>, s: nat)
    requires Pays(a) == Pays(b) && s < |a|
    ensures s < |b| && a[s].payload == b[s].payload
  {
    assert Pays(a)[s] == Pays(b)[s];
  }

  lemma ExistingAt(f: Fields, o: seq<nat>, s: nat, e: Entry) returns (k: nat)
    requires Intact(f, o) && s < f.cur <= |f.bs| && f.bs[s].payload.id == e.id
    ensures k < |o| == f.cur && o[k] == s && Recency(f, o)[k].id == e.id
    ensures f.bs[s].payload.data < |f.slices| && |f.slices[f.bs[s].payload.data]| == f.size
    ensures s == f.head ==> k == 0 && Recency(f, o) == Used(Recency(f, o), 0)
  {
    k := HoldsSlot(f, o, s);
  }

  lemma AfterPutExisting(r: seq<Entry>, k: nat, e: Entry, max: nat)
    requires k < |r| && r[k].id == e.id
    ensures AfterPut(r, e, max, [e] + Used(r, k)[1..]) && Holds(r, e.id)
  {
    assert [e] + Used(r, k)[1..] == [e] + r[..k] + r[k + 1..];
  }

  /** An id has one insertion point, so `Safe` is about that one. */
  lemma SafeAt(f: Fields, id: nat, i: nat)
    requires f.cur <= |f.bs| && InsertAt(f, id, i)
    ensures i <= f.cur && (Safe(f, id) <==> i == f.cur || (if f.cur < |f.bs| then i == f.head else i == f.tail))
  {
    forall j: nat | InsertAt(f, id, j) ensures j == i {
      var idI := if i < f.cur then f.bs[i].payload.id else id;
      var idJ := if j < f.cur then f.bs[j].payload.id else id;
      assert j < i ==> idJ < id;
    }
  }

  lemma StartDown(bs: seq<Block>, ord: seq<nat>, head: int, tail: int, t: nat)
    requires Linked(bs, ord, head, tail) && t < |bs|
    ensures Distinct(ord) && Down(ord, t, t) == ord && PaysDown(Pays(bs), t, t) == Pays(bs)
  {
  }

  lemma StartUp(bs: seq<Block>, ord: seq<nat>, head: int, tail: int, n: nat)
    requires Linked(bs, ord, head, tail) && n < |bs| && forall k | 0 <= k < |ord| :: ord[k] < n
    ensures Distinct(ord) && n !in ord && Up(ord, n, n) == ord && PaysUp(Pays(bs), n, n) == Pays(bs)
  {
  }

  lemma DownStepAt(ord: seq<nat>, t: nat, j: nat, n: nat) returns (k: nat)
    requires Distinct(ord) && t !in ord && t <= j && j + 1 in ord && forall i | 0 <= i < |ord| :: ord[i] < n
    ensures forall i | 0 <= i < |ord| :: Down(ord, t, j)[i] < n
    ensures k < |ord| && Down(ord, t, j)[k] == j + 1 && j !in Down(ord, t, j)
    ensures Down(ord, t, j + 1) == Down(ord, t, j)[k := j]
  {
    k :| 0 <= k < |ord| && ord[k] == j + 1;
    DownStep(ord, t, j, k);
  }

  /** The next block to move up, and whether it heads the list. */
  lemma UpStepAt(bs: seq<Block>, ord: seq<nat>, head: int, tail: int, j: nat, n: nat) returns (k: nat)
    requires Linked(bs, Up(ord, j, n), head, tail) && Distinct(ord) && n !in ord && 0 < j <= n && j - 1 in ord
    requires forall i | 0 <= i < |ord| :: ord[i] < n
    ensures forall i | 0 <= i < |ord| :: Up(ord, j, n)[i] < n + 1
    ensures k < |ord| && Up(ord, j, n)[k] == j - 1 && j !in Up(ord, j, n)
    ensures Up(ord, j - 1, n) == Up(ord, j, n)[k := j]
    ensures j - 1 < |bs| && (bs[j - 1].prev == NULL <==> At(ord, 0) == j - 1)
  {
    k :| 0 <= k < |ord| && ord[k] == j - 1;
    UpStep(ord, j, n, k);
    HeadHasNoPrev(bs, Up(ord, j, n), head, tail, k);
  }

  lemma HeadHasNoPrev(bs: seq<Block>, ord: seq<nat>, head: int, tail: int, k: nat)
    requires Linked(bs, ord, head, tail) && k < |ord|
    ensures ord[k] < |bs| && (bs[ord[k]].prev == NULL <==> k == 0)
    ensures forall j | 0 <= j < |ord| && ord[j] == ord[k] :: j == k
  {
    assert LinkOk(bs, ord, k);
  }
}
