/** The client of the block cache: source blocks read from a file that can only
    be read forwards. */
module SourceBlocks {
  import opened Bytes
  import opened Options
  import opened LruCache
  import opened Sequences

  const MAX_SOURCE_BLOCKS := 32
  const SOURCE_BLOCK_SIZE := 0x400_0000 / MAX_SOURCE_BLOCKS

  /** Block `id` of the file; short at its end, empty behind it. */
  function BlockBytes(file: seq<byte>, id: nat): (b: seq<byte>)
    ensures |b| <= SOURCE_BLOCK_SIZE
  {
    file[Min(id * SOURCE_BLOCK_SIZE, |file|)..Min((id + 1) * SOURCE_BLOCK_SIZE, |file|)]
  }

  /** The blocks in the order of their last use, latest first; `uses` has all
      uses, latest first. */
  function Recent(uses: seq<nat>): (r: seq<nat>)
    ensures forall b :: b in r <==> b in uses
  {
    if uses == [] then [] else [uses[0]] + Drop(Recent(uses[1..]), uses[0])
  }

  function Drop(s: seq<nat>, b: nat): (r: seq<nat>)
    ensures forall x :: x in r <==> x in s && x != b
  {
    if s == [] then [] else if s[0] == b then Drop(s[1..], b) else [s[0]] + Drop(s[1..], b)
  }

  function Values(s: seq<nat>): (v: set<nat>)
    ensures forall x :: x in v <==> x in s
  {
    if s == [] then {} else {s[0]} + Values(s[1..])
  }

  lemma {:induction false} DropOnce(s: seq<nat>, b: nat)
    requires Distinct(s)
    ensures Distinct(Drop(s, b)) && (b !in s ==> Drop(s, b) == s)
  {
    if s != [] {
      DistinctCons(s);
      DropOnce(s[1..], b);
      DistinctCons([s[0]] + Drop(s[1..], b));
    }
  }

  lemma {:induction false} DropAt(s: seq<nat>, n: nat)
    requires Distinct(s) && n < |s|
    ensures Drop(s, s[n]) == s[..n] + s[n + 1..]
  {
    DistinctCons(s);
    if n == 0 {
      DropOnce(s[1..], s[0]);
    } else {
      DropAt(s[1..], n - 1);
      assert s[0] != s[n] && s[1..][..n - 1] == s[1..n];
    }
  }

  lemma {:induction false} RecentOnce(uses: seq<nat>)
    ensures Distinct(Recent(uses))
  {
    if uses != [] {
      RecentOnce(uses[1..]);
      DropOnce(Recent(uses[1..]), uses[0]);
      DistinctCons(Recent(uses));
    }
  }

  lemma {:induction false} DropAppend(a: seq<nat>, c: seq<nat>, b: nat)
    ensures Drop(a + c, b) == Drop(a, b) + Drop(c, b)
  {
    hide Drop;
    if a == [] {
      assert a + c == c;
      DropNone(b);
    } else {
      var x, t := a[0], a[1..];
      assert a == [x] + t && a + c == [x] + (t + c);
      DropAppend(t, c, b);
      DropCons(x, t, b);
      DropCons(x, t + c, b);
    }
  }

  lemma DropNone(b: nat)
    ensures Drop([], b) == []
  {
  }

  lemma DropCons(x: nat, t: seq<nat>, b: nat)
    ensures Drop([x] + t, b) == (if x == b then [] else [x]) + Drop(t, b)
  {
    assert ([x] + t)[1..] == t;
  }

  lemma {:induction false} OnceSize(s: seq<nat>)
    requires Distinct(s)
    ensures |Values(s)| == |s|
  {
    if s != [] {
      DistinctCons(s);
      OnceSize(s[1..]);
    }
  }

  /** The latest uses decide the first places. */
  lemma {:induction false} RecentAppend(a: seq<nat>, d: seq<nat>) returns (c: seq<nat>)
    ensures Recent(a + d) == Recent(a) + c
    ensures d != [] && d[0] !in a ==> c != [] && c[0] == d[0]
  {
    if a == [] {
      assert a + d == d;
      return Recent(d);
    }
    var b := a[0];
    assert (a + d)[1..] == a[1..] + d;
    c := RecentAppend(a[1..], d);
    DropAppend(Recent(a[1..]), c, b);
    c := Drop(c, b);
  }

  /** The place of a block: the number of different blocks used since. */
  lemma RecentAt(uses: seq<nat>, p: nat)
    requires p < |uses| && uses[p] !in uses[..p]
    ensures |Values(uses[..p])| < |Recent(uses)| && Recent(uses)[|Values(uses[..p])|] == uses[p]
  {
    var a, d := uses[..p], uses[p..];
    assert a + d == uses;
    var _ := RecentAppend(a, d);
    RecentOnce(a);
    OnceSize(Recent(a));
    assert Values(Recent(a)) == Values(a);
  }

  /** A block is among the `max` most recent ones exactly when fewer than `max`
      different blocks were used since its last use. */
  lemma RecentIff(uses: seq<nat>, p: nat, max: nat)
    requires p < |uses| && uses[p] !in uses[..p]
    ensures uses[p] in Recent(uses)[..Min(max, |Recent(uses)|)] <==> |Values(uses[..p])| < max
  {
    hide Recent, Values;
    var r, n := Recent(uses), |Values(uses[..p])|;
    RecentAt(uses, p);
    RecentOnce(uses);
    if n < max {
      assert r[..Min(max, |r|)][n] == uses[p];
    } else {
      assert forall i | 0 <= i < Min(max, |r|) :: r[i] != r[n];
    }
  }

  function First(s: seq<nat>, max: nat): seq<nat> {
    s[..Min(max, |s|)]
  }

  /** The cached ids are the `max` most recently used blocks, by recency. */
  ghost predicate Held(r: seq<Entry>, uses: seq<nat>, max: nat) {
    |r| == Min(max, |Recent(uses)|) && forall k | 0 <= k < |r| :: r[k].id == Recent(uses)[k]
  }

  /** The cache mirrors the `nread` blocks read so far: those and no others were
      used, and the last one is still cached. */
  ghost predicate Mirror(r: seq<Entry>, file: seq<byte>, uses: seq<nat>, nread: nat) {
    && (forall b :: b in uses <==> 0 <= b < nread)
    && (forall k | 0 <= k < |r| :: r[k].id < nread && r[k].bytes == BlockBytes(file, r[k].id))
    && (0 < nread ==> Holds(r, nread - 1))
  }

  ghost predicate Faithful(r: seq<Entry>, file: seq<byte>, uses: seq<nat>, nread: nat, max: nat) {
    Held(r, uses, max) && Mirror(r, file, uses, nread)
  }

  /** A hit. */
  lemma HitHeld(r: seq<Entry>, uses: seq<nat>, max: nat, k: nat)
    requires Held(r, uses, max) && k < |r|
    ensures Held(Used(r, k), [r[k].id] + uses, max)
  {
    var b := r[k].id;
    RecentOnce(uses);
    DropAt(Recent(uses), k);
    assert ([b] + uses)[1..] == uses;
    var t, t' := Recent([b] + uses), Used(r, k);
    assert t == [b] + (Recent(uses)[..k] + Recent(uses)[k + 1..]);
    forall j | 0 <= j < |r| ensures t'[j].id == t[j] {
      if j > 0 { assert j <= k ==> t[j] == Recent(uses)[j - 1] && t'[j] == r[j - 1]; }
    }
  }

  lemma HitMirror(r: seq<Entry>, file: seq<byte>, uses: seq<nat>, nread: nat, k: nat)
    requires Mirror(r, file, uses, nread) && k < |r|
    ensures Mirror(Used(r, k), file, [r[k].id] + uses, nread)
  {
    hide BlockBytes;
    var r' := Used(r, k);
    if 0 < nread {
      var j :| 0 <= j < |r| && r[j].id == nread - 1;
      assert r'[if j == k then 0 else if j < k then j + 1 else j].id == nread - 1;
    }
  }

  /** A block read from the file and put into the cache. */
  lemma ReadFaithful(r: seq<Entry>, file: seq<byte>, uses: seq<nat>, nread: nat, max: nat, r': seq<Entry>)
    requires Faithful(r, file, uses, nread, max) && 0 < max
    requires AfterPut(r, Entry(nread, BlockBytes(file, nread)), max, r')
    ensures Faithful(r', file, [nread] + uses, nread + 1, max) && r' != [] && r'[0].id == nread
  {
    hide Held, BlockBytes, Recent, First;
    var e := Entry(nread, BlockBytes(file, nread));
    assert !Holds(r, nread) && r' == [e] + if |r| == max then r[..|r| - 1] else r;
    ReadHeld(r, uses, nread, max, r', e);
    assert Holds(r', nread) by { assert r'[0].id == nread; }
  }

  lemma ReadHeld(r: seq<Entry>, uses: seq<nat>, nread: nat, max: nat, r': seq<Entry>, e: Entry)
    requires Held(r, uses, max) && 0 < max && nread !in uses && e.id == nread
    requires r' == [e] + if |r| == max then r[..|r| - 1] else r
    ensures Held(r', [nread] + uses, max)
  {
    RecentOnce(uses);
    DropOnce(Recent(uses), nread);
    assert Recent([nread] + uses) == [nread] + Recent(uses);
  }

  /** Whether a block is cached. */
  lemma HeldIff(r: seq<Entry>, uses: seq<nat>, max: nat, b: nat)
    requires Held(r, uses, max)
    ensures Holds(r, b) <==> b in First(Recent(uses), max)
  {
    if Holds(r, b) {
      var k :| 0 <= k < |r| && r[k].id == b;
      assert First(Recent(uses), max)[k] == b;
    }
  }

  /** A block that was read before and is not among the most recently used ones
      any more. */
  predicate Refuses(uses: seq<nat>, block: nat) {
    block in uses && block !in First(Recent(uses), MAX_SOURCE_BLOCKS)
  }

  /** The uses once `block` was asked for and had, with `nread` blocks read before:
      a hit, or all blocks up to it read. */
  function UsesAfter(uses: seq<nat>, nread: nat, block: nat): (r: seq<nat>)
    ensures (forall b :: b in uses <==> 0 <= b < nread) ==> forall b :: b in r <==> 0 <= b < Max(nread, block + 1)
  {
    if block < nread then [block] + uses else ReadOn(uses, nread, block)
  }

  function ReadOn(uses: seq<nat>, nread: nat, block: nat): (r: seq<nat>)
    ensures forall b :: b in r <==> b in uses || nread <= b <= block
    decreases block + 1 - nread
  {
    if nread > block then uses else ReadOn([nread] + uses, nread + 1, block)
  }

  /** As long as all blocks ever read fit into the cache, none is refused. */
  lemma FewNeverRefused(uses: seq<nat>, nread: nat, block: nat)
    requires (forall b :: b in uses <==> 0 <= b < nread) && nread <= MAX_SOURCE_BLOCKS
    ensures !Refuses(uses, block)
  {
    var r := Recent(uses);
    RecentOnce(uses);
    OnceSize(r);
    BelowSize(Values(r), nread);
    assert First(r, MAX_SOURCE_BLOCKS) == r;
  }

  lemma {:induction false} BelowSize(v: set<nat>, n: nat)
    requires forall x :: x in v ==> x < n
    ensures |v| <= n
  {
    if n == 0 {
      assert v == {};
    } else {
      BelowSize(v - {n - 1}, n - 1);
    }
  }

  /** `XD3_TOOFARBACK` is the one failure. */
  datatype Answer = Ok | TooFarBack

  class Source {
    const file: seq<byte>
    const cache: Lru
    var pos: nat
    var curblkno: nat
    var onblk: nat
    var curblk: nat
    ghost var nread: nat
    ghost var uses: seq<nat>

    ghost predicate Valid()
      reads this, cache, cache.blocks, cache.slices
    {
      && cache.Valid() && cache.maxBlocks == MAX_SOURCE_BLOCKS && cache.blockSize == SOURCE_BLOCK_SIZE
      && pos == Min(nread * SOURCE_BLOCK_SIZE, |file|)
      && Faithful(cache.Entries(), file, uses, nread, MAX_SOURCE_BLOCKS)
    }

    constructor (file: seq<byte>)
      ensures Valid() && this.file == file && uses == []
    {
      this.file := file;
      cache := new Lru(MAX_SOURCE_BLOCKS, SOURCE_BLOCK_SIZE);
      pos, nread, uses := 0, 0, [];
    }

    /** The file's `read(n)`. */
    method Read(n: nat) returns (data: seq<byte>)
      requires pos <= |file|
      modifies this`pos
      ensures pos == Min(old(pos) + n, |file|) && data == file[old(pos)..pos]
    {
      var end := Min(pos + n, |file|);
      data := file[pos..end];
      pos := end;
    }

    /** A slot that holds the most recent entry. */
    ghost predicate AtHead(slot: nat, block: nat)
      requires Valid()
      reads this, cache, cache.blocks, cache.slices
    {
      slot == cache.head && slot < cache.curBlocks && cache.Entries()[0].id == block
    }

    /** One round of the reading loop of `get_source_block`. */
    method ReadBlock(id: nat) returns (slot: nat)
      requires Valid() && id == nread
      modifies this`pos, this`nread, this`uses, cache, cache.blocks, cache.slices
      ensures Valid() && nread == id + 1 && uses == [id] + old(uses)
      ensures AtHead(slot, id)
    {
      hide Held, Mirror, BlockBytes, Intact, Safe, Recency, AfterPut;
      Ascending(cache.View(), cache.order, file, uses, id);
      ghost var r := cache.Entries();
      var data := Read(SOURCE_BLOCK_SIZE);
      NextBlock(file, id);
      slot := cache.Put(id, data);
      ReadFaithful(r, file, uses, id, MAX_SOURCE_BLOCKS, cache.Entries());
      nread, uses := id + 1, [id] + uses;
    }

    /** Read on until `block` was read; `None` when it was read before. */
    method ReadUpTo(block: nat) returns (entry: Option<nat>)
      requires Valid()
      modifies this`pos, this`nread, this`uses, cache, cache.blocks, cache.slices
      ensures Valid() && nread == Max(old(nread), block + 1)
      ensures entry == None ==> block < old(nread) && cache.Entries() == old(cache.Entries()) && uses == old(uses)
      ensures entry.Some? ==> old(nread) <= block && uses == ReadOn(old(uses), old(nread), block)
      ensures entry.Some? ==> AtHead(entry.value, block)
    {
      hide Held, Mirror, Intact, Recency, Recent;
      ghost var r := cache.Entries();
      entry := None;
      var recent := cache.Last();
      var id := if recent.Some? then recent.value + 1 else 0;
      LastIsLatest(r, file, uses, nread, id);
      while id <= block
        invariant Valid() && id == nread && old(nread) <= id <= Max(old(nread), block + 1)
        invariant entry == None ==> id == old(nread) && cache.Entries() == r && uses == old(uses)
        invariant entry.Some? ==> old(nread) < id && AtHead(entry.value, id - 1)
        invariant ReadOn(uses, id, block) == ReadOn(old(uses), old(nread), block)
      {
        var slot := ReadBlock(id);
        entry := Some(slot);
        id := id + 1;
      }
      HeadEntry(cache.View(), cache.order);
      if entry.Some? && cache.blocks[entry.value].payload.id != block {
        entry := None;
      }
    }

    /** `curblk` shows the most recent entry. */
    ghost predicate Shows(block: nat)
      requires Valid()
      reads this, cache, cache.blocks, cache.slices
    {
      && curblkno == block && cache.Entries() != [] && cache.Entries()[0].id == block
      && curblk < cache.slices.Length && onblk <= |cache.slices[curblk]|
      && cache.slices[curblk][..onblk] == BlockBytes(file, block)
    }

    /** `get_source_block`: it fails exactly when the block was read before and
        is not among the most recently used ones any more; otherwise `curblk`
        shows the block's bytes. */
    method GetSourceBlock(block: nat) returns (answer: Answer)
      requires Valid()
      modifies this`pos, this`nread, this`uses, this`curblkno, this`onblk, this`curblk
      modifies cache, cache.blocks, cache.slices
      ensures Valid()
      ensures answer == TooFarBack <==> Refuses(old(uses), block)
      ensures answer == Ok ==> Shows(block) && nread == Max(old(nread), block + 1)
      ensures answer == Ok ==> uses == UsesAfter(old(uses), old(nread), block)
      ensures answer == TooFarBack ==>
        cache.Entries() == old(cache.Entries()) && uses == old(uses) && nread == old(nread)
      ensures answer == TooFarBack ==> curblk == old(curblk) && onblk == old(onblk) && curblkno == old(curblkno)
    {
      hide Mirror, Held, Intact, Recency, Recent, First, Holds, UsesAfter;
      var entry := Lookup(block);
      if entry.Some? {
        Expose(entry.value, block);
        answer := Ok;
      } else {
        answer := TooFarBack;
      }
    }

    /** The entry of a block, from the cache or from the file. */
    method Lookup(block: nat) returns (entry: Option<nat>)
      requires Valid()
      modifies this`pos, this`nread, this`uses, cache, cache.blocks, cache.slices
      ensures Valid()
      ensures entry == None <==> Refuses(old(uses), block)
      ensures entry == None ==>
        cache.Entries() == old(cache.Entries()) && uses == old(uses) && nread == old(nread)
      ensures entry.Some? ==> nread == Max(old(nread), block + 1) && uses == UsesAfter(old(uses), old(nread), block)
      ensures entry.Some? ==> AtHead(entry.value, block)
    {
      hide Held, Mirror, Intact, Recency, Recent, First, Holds, AtHead;
      HeldIff(cache.Entries(), uses, MAX_SOURCE_BLOCKS, block);
      InMirror(cache.Entries(), file, uses, nread, block);
      entry := Cached(block);
      if entry == None {
        entry := ReadUpTo(block);
      }
    }

    /** The entry of a block in the cache. */
    method Cached(block: nat) returns (entry: Option<nat>)
      requires Valid()
      modifies this`uses, cache, cache.blocks, cache.slices
      ensures Valid() && (entry.Some? <==> Holds(old(cache.Entries()), block))
      ensures entry == None ==> cache.Entries() == old(cache.Entries()) && uses == old(uses)
      ensures entry.Some? ==> block < nread && nread == old(nread) && uses == [block] + old(uses)
      ensures entry.Some? ==> AtHead(entry.value, block)
    {
      hide Faithful, Recency, Recent, Holds, AfterGet, Min, Intact;
      ghost var r := cache.Entries();
      entry := cache.Get(block);
      if entry.Some? {
        uses := HitUses(r, file, uses, nread, cache.Entries(), block);
      } else {
        MissSame(r, block, cache.Entries());
      }
    }

    /** Point `curblk` at the most recent entry. */
    method Expose(slot: nat, ghost block: nat)
      requires Valid() && AtHead(slot, block)
      modifies this`curblkno, this`onblk, this`curblk
      ensures Valid() && Shows(block)
    {
      hide Held, Mirror, BlockBytes, Intact, Recency, Recent, Shape;
      HeadEntry(cache.View(), cache.order);
      InMirror(cache.Entries(), file, uses, nread, block);
      var e := cache.blocks[slot].payload;
      assert e == cache.View().bs[slot].payload;
      curblkno, onblk, curblk := e.id, e.size, e.data;
    }
  }

  lemma HeadEntry(f: Fields, o: seq<nat>)
    requires Intact(f, o)
    ensures Shape(f) && (forall s | 0 <= s < f.cur :: f.bs[s].payload.data < |f.slices|)
    ensures 0 < f.cur ==> 0 <= f.head < f.cur && EntryAt(f, f.head) == Recency(f, o)[0]
  {
  }

  lemma LastIsLatest(r: seq<Entry>, file: seq<byte>, uses: seq<nat>, nread: nat, id: nat)
    requires Mirror(r, file, uses, nread)
    requires if r == [] then id == 0 else 0 < id && Holds(r, id - 1) && forall k | 0 <= k < |r| :: r[k].id <= id - 1
    ensures id == nread
  {
  }

  lemma InMirror(r: seq<Entry>, file: seq<byte>, uses: seq<nat>, nread: nat, b: nat)
    requires Mirror(r, file, uses, nread)
    ensures b in uses <==> b < nread
    ensures r != [] && r[0].id == b ==> r[0].bytes == BlockBytes(file, b)
  {
  }

  lemma Ascending(f: Fields, o: seq<nat>, file: seq<byte>, uses: seq<nat>, id: nat)
    requires Intact(f, o) && Mirror(Recency(f, o), file, uses, id)
    ensures f.cur <= |f.bs| && Safe(f, id)
  {
    AscendingSafe(f, o, id);
  }

  lemma NextBlock(file: seq<byte>, id: nat)
    ensures var a := Min(id * SOURCE_BLOCK_SIZE, |file|);
      file[a..Min(a + SOURCE_BLOCK_SIZE, |file|)] == BlockBytes(file, id)
      && |BlockBytes(file, id)| <= SOURCE_BLOCK_SIZE
      && Min(a + SOURCE_BLOCK_SIZE, |file|) == Min((id + 1) * SOURCE_BLOCK_SIZE, |file|)
  {
  }

  lemma MissSame(r: seq<Entry>, b: nat, r': seq<Entry>)
    requires AfterGet(r, b, r') && !Holds(r, b)
    ensures r' == r
  {
  }

  lemma HitUses(r: seq<Entry>, file: seq<byte>, uses: seq<nat>, nread: nat, r': seq<Entry>, b: nat) returns (uses': seq<nat>)
    requires Faithful(r, file, uses, nread, MAX_SOURCE_BLOCKS) && Holds(r, b) && AfterGet(r, b, r')
    ensures Faithful(r', file, uses', nread, MAX_SOURCE_BLOCKS) && uses' == [b] + uses
    ensures b in uses && b < nread && 0 < |r'| && r'[0] == Entry(b, BlockBytes(file, b))
  {
    var k :| 0 <= k < |r| && r[k].id == b && r' == Used(r, k);
    HitHeld(r, uses, MAX_SOURCE_BLOCKS, k);
    HitMirror(r, file, uses, nread, k);
    uses' := [b] + uses;
  }
}
