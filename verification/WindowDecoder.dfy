/** The window decoder with its cursors, reading the source file by blocks and
    able to stop for a block and be entered again. */
module WindowDecoder {
  import opened Bytes
  import opened Options
  import opened Varint
  import opened AddressCache
  import opened CodeTable
  import opened Delta
  import opened Window
  import opened SourceFiles
  import opened SourceBlocks

  /** 0 (go on), XD3_GETSRCBLK, XD3_OUTPUT, XD3_INVALID_INPUT, XD3_INTERNAL. */
  datatype Ret = Zero | GetSrcBlk | OutputReady | InvalidInput | Internal

  /** What a half-instruction must satisfy to be carried out at all, right or
      wrong. */
  predicate Runnable(env: Env, h: Half, outlen: nat) {
    h.kind == NOOP || (
      && Coded(h.kind) && h.size < USIZE_LIMIT && h.addr < USIZE_LIMIT
      && (h.kind >= CPY ==> h.addr < env.cpylen + outlen))
  }

  /** A source copy. */
  predicate FromSource(env: Env, h: Half) {
    h.kind >= CPY && h.addr < env.cpylen
  }

  /** A source copy done in two parts equals the copy done in one. */
  lemma {:induction false} ExecuteSplit(w: WInst, n: nat, take: nat, adds: seq<byte>, S: seq<byte>, T: seq<byte>)
    requires Fits(w, |adds|, |S|) && w.kind >= CPY && w.mode == VCD_SOURCE && take <= n <= w.size && w.position == |T|
    ensures var w' := w.(addr := w.addr + take, size := w.size - take, position := w.position + take);
      Execute(w, n, adds, S, T) == Execute(w', n - take, adds, S, Execute(w, take, adds, S, T))
  {
    if take < n {
      ExecuteSplit(w, n - 1, take, adds, S, T);
    }
  }

  /** The parts of one source copy supplied by successive blocks add up. */
  lemma OutputSplit(env: Env, h: Half, take: nat, data: seq<byte>, out: seq<byte>, out': seq<byte>)
    requires env.Valid() && Coded(h.kind) && h.kind >= CPY && take < h.size && h.addr + h.size <= env.cpylen
    requires env.cpyoff + h.addr + take <= |env.S|
    requires out' == out + env.S[env.cpyoff + h.addr..env.cpyoff + h.addr + take]
    ensures Output(env, h, data, out)
         == Output(env, h.(addr := h.addr + take, size := h.size - take), data, out')
  {
    var w := Resolve(env, h, |out|);
    if Fits(w, |data|, |env.S|) {
      ExecuteSplit(w, w.size, take, data, env.S, out);
      SourceBytes(w, take, data, env.S, out);
    }
  }

  lemma SourceBytes(w: WInst, n: nat, adds: seq<byte>, S: seq<byte>, T: seq<byte>)
    requires Fits(w, |adds|, |S|) && w.kind >= CPY && w.mode == VCD_SOURCE && n <= w.size && w.position == |T|
    ensures Execute(w, n, adds, S, T) == T + S[w.addr..w.addr + n]
  {
    var U := T + S[w.addr..w.addr + w.size];
    forall k: nat | k < w.size ensures Shows(w, k, adds, S, U) {
    }
    ExecuteReproduces(w, n, adds, S, U);
    assert U[..w.position] == T;
    assert U[..w.position + n] == T + S[w.addr..w.addr + n];
  }

  /** A block that holds the bytes wanted from it holds them at the right place,
      and a short one proves the file too short. */
  lemma BlockHolds(S: seq<byte>, b: nat, lo: nat, off: nat, take: nat)
    requires off < b
    ensures var blk := Stretch(S, lo, b);
      && (off + take <= |blk| && 0 < take ==>
            lo + off + take <= |S| && blk[off..off + take] == S[lo + off..lo + off + take])
      && (|blk| != b && off + take > |blk| ==> lo + off + take > |S|)
      && (|blk| == b ==> lo + b <= |S|)
      && (off <= |blk| && off > 0 ==> lo + off <= |S|)
  {
    var blk := Stretch(S, lo, b);
    if off + take <= |blk| && 0 < take {
      PartOfPart(S, lo, Min(lo + b, |S|), off, take);
    }
  }

  lemma PartOfPart(S: seq<byte>, a: nat, e: nat, off: nat, n: nat)
    requires a + off + n <= e <= |S|
    ensures S[a..e][off..off + n] == S[a + off..a + off + n]
  {
    var x, y := S[a..e][off..off + n], S[a + off..a + off + n];
    assert forall k | 0 <= k < n :: x[k] == S[a + (off + k)] && y[k] == S[a + off + k];
    assert x == y;
  }

  /** The decoder fields of `xd3_stream` while a window is decoded. A section is
      a byte sequence and a cursor; `nextOut` is the output buffer. */
  class Decoder {
    const env: Env
    const source: SourceFile
    const acache: AddrCache
    const codeTable: array<DInst>
    const nextOut: array<byte>
    const instSect: seq<byte>
    const dataSect: seq<byte>
    const addrSect: seq<byte>
    var instPos: nat
    var dataPos: nat
    var addrPos: nat
    var decPosition: nat
    var availOut: nat
    var current1: Half
    var current2: Half
    ghost const Repr: set<object>

    /** The code table is the default one. */
    ghost predicate TableOk()
      reads codeTable
    {
      codeTable.Length == 256 && forall c: byte :: codeTable[c] == Entry(c)
    }

    ghost predicate AddrCacheOk()
      reads acache, acache.nearArray, acache.sameArray
    {
      acache.Valid() && CacheOk(acache.View())
    }

    ghost predicate Base()
      reads this, Repr
    {
      && Repr == {this, source, acache, acache.nearArray, acache.sameArray, codeTable, nextOut}
      && codeTable as object != nextOut && acache.nearArray as object != nextOut && acache.sameArray as object != nextOut
      && codeTable as object != acache.nearArray && codeTable as object != acache.sameArray
      && env.Valid() && source.Valid() && source.bytes == env.S && source.blksize == env.blksize
      && AddrCacheOk() && TableOk()
      && instPos <= |instSect| && dataPos <= |dataSect| && addrPos <= |addrSect|
      && availOut <= nextOut.Length && env.tgtlen <= nextOut.Length && env.blksize + nextOut.Length <= USIZE_LIMIT
    }

    /** Where the output will end when both halves are done. */
    ghost function Reach(): nat
      reads this
    {
      availOut + SizeLeft(current1) + SizeLeft(current2)
    }

    /** `decPosition` is kept in 32 bits. Sizes that make it wrap around lead
        past the end of the window, and then the decoder goes on for a while. */
    ghost predicate Valid()
      reads this, Repr
    {
      && Base()
      && Runnable(env, current1, availOut) && Runnable(env, current2, availOut + SizeLeft(current1))
      && decPosition == (env.cpylen + Reach()) % USIZE_LIMIT
      && (Reach() <= env.tgtlen ==>
            Waiting(env, current1, availOut) && Waiting(env, current2, availOut + SizeLeft(current1)))
    }

    ghost function Data(): seq<byte>
      requires dataPos <= |dataSect|
      reads this
    {
      dataSect[dataPos..]
    }

    ghost function Out(): seq<byte>
      requires availOut <= nextOut.Length
      reads this, nextOut
    {
      nextOut[..availOut]
    }

    /** What the sections still hold, and the output so far. */
    ghost function View(): State
      requires Base()
      reads this, Repr
    {
      State(instSect[instPos..], Data(), addrSect[addrPos..], acache.View(), Out())
    }

    /** The window this decoder will produce in the end, if any. */
    ghost function Goal(): Option<seq<byte>>
      requires Valid()
      reads this, Repr
    {
      if Reach() > env.tgtlen then None else Rest(env, current1, current2, View())
    }

    /** The half-instruction to be carried out next. */
    ghost function Pending(): Half
      reads this
    {
      if current1.kind != NOOP then current1 else current2
    }

    /** The block that a source copy needs next. */
    ghost function BlockOf(h: Half): nat
      requires 0 < env.blksize <= USIZE_LIMIT && h.addr < USIZE_LIMIT
    {
      Place(env.blksize, env.cpyoff, h.addr).0
    }

    /** The block needed next was asked for. */
    ghost predicate Asked()
      requires Valid()
      reads this, Repr
    {
      FromSource(env, Pending()) && source.getblkno == BlockOf(Pending())
    }

    /** The block needed next is there. */
    ghost predicate Ready()
      requires Valid()
      reads this, Repr
    {
      FromSource(env, Pending()) && source.loaded && source.curblkno == BlockOf(Pending())
    }

    /** The copy window lies in the first blocks of the file, all of which the
        client can keep. */
    ghost predicate NearStart()
      requires env.Valid()
      reads source
    {
      env.Placed() && source.AllCached() && env.cpyoff + env.cpylen <= MAX_SOURCE_BLOCKS * env.blksize
    }

    /** What is left to do: room for output, opcodes, and halves. */
    ghost function Left(): int
      reads this
    {
      nextOut.Length - availOut + 2 * (|instSect| - instPos)
        + (if current1.kind != NOOP then 1 else 0) + if current2.kind != NOOP then 1 else 0
    }

    /** A decoder at the start of a window; the buffer has room for it. Block size
        and buffer are at most half of what `usize_t` can count. */
    constructor (e: Env, src: SourceFile, inst: seq<byte>, data: seq<byte>, addr: seq<byte>, space: nat)
      requires e.Valid() && e.tgtlen <= space && e.blksize + space <= USIZE_LIMIT
      requires src.Valid() && src.bytes == e.S && src.blksize == e.blksize
      ensures Valid() && fresh(Repr - {src}) && env == e && source == src
      ensures Goal() == Decode(e, inst, data, addr) && Left() == space + 2 * |inst|
    {
      hide CacheOk, Entry, Run, Rest, Decode, Waiting, Runnable, SourceFile.Valid, Finish, OutputLeft;
      StartOk(e, inst, data, addr);
      var cache := new AddrCache(NEAR_MODES, SAME_MODES);
      var table := BuildCodeTable();
      var buf := new byte[space](i => 0);
      env, source, acache, codeTable, nextOut := e, src, cache, table, buf;
      instSect, dataSect, addrSect := inst, data, addr;
      instPos, dataPos, addrPos, availOut := 0, 0, 0, 0;
      decPosition := e.cpylen;
      current1, current2 := NONE, NONE;
      Repr := {this, src, cache, cache.nearArray, cache.sameArray, table, buf};
      new;
      assert instSect[0..] == inst && dataSect[0..] == data && addrSect[0..] == addr && nextOut[..0] == [];
      assert View() == State(inst, data, addr, Empty(NEAR_MODES, SAME_MODES), []);
    }

    /** `xd3_decode_parse_halfinst`; `pos` is the decoder position, not wrapped.
        What it refuses is no instruction of the window. What it takes is one, or
        reaches past the end of the window. */
    method ParseHalfinst(kind: nat, size0: nat, ghost pos: nat) returns (ok: bool, h: Half)
      requires Base() && Coded(kind) && size0 < USIZE_LIMIT && decPosition == pos % USIZE_LIMIT
      modifies this`instPos, this`addrPos, this`decPosition, acache, acache.nearArray, acache.sameArray
      ensures ok ==> Base() && instPos >= old(instPos) && Parses(kind, pos, h)
      ensures pos <= env.cpylen + env.tgtlen ==>
        var p := ParseHalf(env, kind, size0, old(instSect[instPos..]), old(addrSect[addrPos..]), old(acache.View()), pos);
        if p.Some? then ok && p.value == Parsed(h, instSect[instPos..], addrSect[addrPos..], acache.View(), pos + h.size)
        else ok ==> pos + h.size > env.cpylen + env.tgtlen
    {
      hide ParseSized, ReadFrom, AddrCacheOk, CacheOk, TableOk;
      var size := size0;
      CacheIsOk();
      if size == 0 {
        var next: nat;
        ok, size, next := ReadInteger(instSect, instPos, OFLOW32);
        if !ok { return false, NONE; }
        ReadFits(instSect[instPos..]);
        instPos := next;
      }
      ok, h := ParseRest(kind, size, pos);
    }

    lemma CacheIsOk()
      requires AddrCacheOk()
      ensures CacheOk(acache.View())
    {
    }

    /** A half-instruction was parsed at `pos`. */
    ghost predicate Parses(kind: nat, pos: nat, h: Half)
      reads this`decPosition
    {
      && decPosition == (pos + h.size) % USIZE_LIMIT
      && h.kind == kind && h.size < USIZE_LIMIT && h.addr < USIZE_LIMIT && (kind >= CPY ==> h.addr < pos)
    }

    /** The same once the size is known. */
    method ParseRest(kind: nat, size: nat, ghost pos: nat) returns (ok: bool, h: Half)
      requires Base() && Coded(kind) && size < USIZE_LIMIT && decPosition == pos % USIZE_LIMIT
      modifies this`addrPos, this`decPosition, acache, acache.nearArray, acache.sameArray
      ensures ok ==> Base() && Parses(kind, pos, h) && h.size == size
      ensures pos <= env.cpylen + env.tgtlen ==>
        var p := ParseSized(env, kind, size, instSect[instPos..], old(addrSect[addrPos..]), old(acache.View()), pos);
        if p.Some? then ok && p.value == Parsed(h, instSect[instPos..], addrSect[addrPos..], acache.View(), pos + h.size)
        else ok ==> pos + h.size > env.cpylen + env.tgtlen
    {
      hide DecodeAddr, ReadFrom, Update, CacheOk, TableOk;
      ghost var c := acache.View();
      PosWraps(pos);
      var addr := 0;
      if kind >= CPY {
        var next: nat;
        ok, addr, next := acache.DecodeAddress(decPosition, kind - CPY, addrSect, addrPos);
        if !ok { return false, NONE; }
        addrPos := next;
        if addr >= decPosition { return false, NONE; }
        UpdateOk(c, addr);
        if addr < env.cpylen && Wrap(addr + size) > env.cpylen { return false, NONE; }
      }
      if Wrap(decPosition + size) > env.cpylen + env.tgtlen { return false, NONE; }
      AddWraps(pos, size);
      decPosition := Wrap(decPosition + size);
      return true, Half(kind, size, addr);
    }

    /** `xd3_decode_instruction`: take one opcode and parse both halves. */
    method DecodeInstruction() returns (ok: bool)
      requires Valid() && current1.kind == NOOP && current2.kind == NOOP && instPos < |instSect|
      modifies this`instPos, this`addrPos, this`decPosition, this`current1, this`current2
      modifies acache, acache.nearArray, acache.sameArray
      ensures ok ==> Valid() && instPos > old(instPos) && Goal() == old(Goal())
      ensures ok ==> Left() <= old(Left())
      ensures !ok ==> old(Goal()) == None
    {
      hide ParsedBoth, Output, CacheOk, Run, Entry, Rest, TableOk;
      ghost var st, good := View(), availOut <= env.tgtlen;
      TableAt(instSect[instPos]);
      var e := codeTable[instSect[instPos]];
      instPos := instPos + 1;
      assert st.inst[1..] == instSect[instPos..];
      if good { BothOk(env, e, Tail(st)); RestBoth(env, current1, current2, st); }
      var h1, h2;
      ok, h1, h2 := ParseBoth(e, env.cpylen + availOut);
      if ok { current1, current2 := h1, h2; }
    }

    /** Parse both halves. */
    method ParseBoth(e: DInst, ghost pos: nat) returns (ok: bool, h1: Half, h2: Half)
      requires Base() && TableEntry(e) && e.size1 < USIZE_LIMIT && e.size2 < USIZE_LIMIT && decPosition == pos % USIZE_LIMIT
      requires env.cpylen <= pos
      modifies this`instPos, this`addrPos, this`decPosition, acache, acache.nearArray, acache.sameArray
      ensures ok ==> Base() && instPos >= old(instPos) && decPosition == (pos + SizeLeft(h1) + SizeLeft(h2)) % USIZE_LIMIT
      ensures ok ==> Runnable(env, h1, pos - env.cpylen) && Runnable(env, h2, pos - env.cpylen + SizeLeft(h1))
      ensures pos <= env.cpylen + env.tgtlen ==>
        var p := ParsedBoth(env, e, old(instSect[instPos..]), old(addrSect[addrPos..]), old(acache.View()), pos);
        if p.Some? then ok && p.value == Both(h1, h2, instSect[instPos..], addrSect[addrPos..], acache.View())
        else ok ==> pos + SizeLeft(h1) + SizeLeft(h2) > env.cpylen + env.tgtlen
    {
      hide ParseHalf, CacheOk, TableOk, AddrCacheOk;
      h2 := NONE;
      CacheIsOk();
      ok, h1 := ParseHalfinst(e.type1, e.size1, pos);
      if ok && e.type2 != NOOP {
        CacheIsOk();
        ok, h2 := ParseHalfinst(e.type2, e.size2, pos + h1.size);
      }
    }

    lemma TableAt(c: byte)
      requires Base()
      ensures codeTable.Length == 256 && codeTable[c] == Entry(c) && TableEntry(Entry(c))
      ensures Entry(c).size1 < USIZE_LIMIT && Entry(c).size2 < USIZE_LIMIT
    {
    }

    /** `xd3_decode_output_halfinst`: one call takes at most what one source
        block supplies; `left` is what is still to do. */
    method OutputHalfinst(h: Half) returns (ret: Ret, left: Half)
      requires Base() && Runnable(env, h, availOut) && h.kind != NOOP
      modifies this`dataPos, this`availOut, nextOut, source
      ensures Base() && ret != OutputReady
      ensures ret == Zero ==> Runnable(env, left, availOut) && availOut + SizeLeft(left) == old(availOut) + h.size
      ensures ret == Zero ==> left == NONE || (left.kind == h.kind && left.size < h.size)
      ensures old(Waiting(env, h, availOut)) && ret == Zero ==> Waiting(env, left, availOut)
      ensures old(Waiting(env, h, availOut)) && ret == Zero && env.Placed() ==>
        OutputLeft(env, left, Data(), Out()) == OutputLeft(env, h, old(Data()), old(Out()))
      ensures old(Waiting(env, h, availOut)) && ret == InvalidInput && env.Placed() ==>
        OutputLeft(env, h, old(Data()), old(Out())) == None
      ensures ret == GetSrcBlk || ret == Internal ==> dataPos == old(dataPos) && availOut == old(availOut) && Out() == old(Out())
      ensures ret == GetSrcBlk ==> FromSource(env, h) && source.getblkno == BlockOf(h)
      ensures FromSource(env, h) && old(source.loaded) && old(source.curblkno) == BlockOf(h) ==>
        ret != GetSrcBlk && ret != Internal
      ensures source.refused == old(source.refused) + (if ret == Internal then 1 else 0) && (ret == GetSrcBlk ==> !source.client.Cached?)
      ensures old(source.client) == NoCallback ==> ret != Internal && source.client == NoCallback
      ensures old(NearStart()) ==> ret != GetSrcBlk && ret != Internal && NearStart()
    {
      hide CacheOk, Entry, Execute, AddrCacheOk, TableOk, SourceFile.Valid, SourceFile.AllCached;
      var take := h.size;
      left := NONE;
      if availOut + take > nextOut.Length { return InvalidInput, h; }
      if h.kind == RUN {
        if dataPos == |dataSect| { return InvalidInput, h; }
        Literal(h);
        dataPos := dataPos + 1;
        availOut := availOut + take;
        return Zero, NONE;
      } else if h.kind == ADD {
        if dataPos + take > |dataSect| { return InvalidInput, h; }
        Literal(h);
        dataPos := dataPos + take;
        availOut := availOut + take;
        return Zero, NONE;
      } else if h.addr < env.cpylen {
        ret, left := SourceCopy(h);
      } else {
        TargetCopy(h);
        availOut := availOut + take;
        return Zero, NONE;
      }
    }

    /** Write a run or the literal bytes of an ADD. */
    method Literal(h: Half)
      requires Base() && availOut + h.size <= nextOut.Length && (h.kind == RUN || h.kind == ADD)
      requires Fits(Resolve(env, h, availOut), |Data()|, |env.S|)
      modifies nextOut
      ensures Base()
      ensures nextOut[..availOut + h.size] == Execute(Resolve(env, h, availOut), h.size, Data(), env.S, old(Out()))
    {
      hide Execute, Shows, AddrCacheOk, TableOk;
      ghost var T := Out();
      LiteralExec(env, h, Data(), T);
      if h.kind == RUN {
        forall i | 0 <= i < h.size { nextOut[availOut + i] := dataSect[dataPos]; }
      } else {
        forall i | 0 <= i < h.size { nextOut[availOut + i] := dataSect[dataPos + i]; }
      }
      assert nextOut[..availOut + h.size] == T + LiteralBytes(h, Data());
    }

    /** Copy within the window, a byte at a time because the ranges may overlap. */
    method TargetCopy(h: Half)
      requires Base() && availOut + h.size <= nextOut.Length && h.kind >= CPY && env.cpylen <= h.addr < env.cpylen + availOut
      modifies nextOut
      ensures Base()
      ensures nextOut[..availOut + h.size] == Execute(Resolve(env, h, availOut), h.size, Data(), env.S, old(Out()))
    {
      hide Execute, Shows, AddrCacheOk, TableOk;
      ghost var T := Out();
      var src := h.addr - env.cpylen;
      var i := 0;
      while i < h.size
        modifies nextOut
        invariant 0 <= i <= h.size && nextOut[..availOut] == T
        invariant forall j | availOut <= j < availOut + i :: nextOut[j] == nextOut[j - availOut + src]
      {
        nextOut[availOut + i] := nextOut[src + i];
        i := i + 1;
      }
      CopyExec(env, h, Data(), T, nextOut[..availOut + h.size]);
    }

    method CopyFromBlock(blkoff: nat, take: nat)
      requires Base() && availOut + take <= nextOut.Length && blkoff + take <= |source.curblk|
      modifies this`availOut, nextOut
      ensures Base() && availOut == old(availOut) + take
      ensures Out() == old(Out()) + source.curblk[blkoff..blkoff + take]
    {
      hide AddrCacheOk, TableOk;
      forall i | 0 <= i < take { nextOut[availOut + i] := source.curblk[blkoff + i]; }
      availOut := availOut + take;
    }

    /** The part of a source copy that one block supplies. */
    method SourceCopy(h: Half) returns (ret: Ret, left: Half)
      requires Base() && Runnable(env, h, availOut) && FromSource(env, h) && availOut + h.size <= nextOut.Length
      modifies this`availOut, nextOut, source
      ensures Base() && ret != OutputReady
      ensures ret == Zero ==> Runnable(env, left, availOut) && availOut + SizeLeft(left) == old(availOut) + h.size
      ensures ret == Zero ==> left == NONE || (left.kind == h.kind && left.size < h.size)
      ensures old(Waiting(env, h, availOut)) && ret == Zero ==> Waiting(env, left, availOut)
      ensures old(Waiting(env, h, availOut)) && ret == Zero && env.Placed() ==>
        OutputLeft(env, left, Data(), Out()) == Output(env, h, old(Data()), old(Out()))
      ensures old(Waiting(env, h, availOut)) && ret == InvalidInput && env.Placed() ==>
        Output(env, h, old(Data()), old(Out())) == None
      ensures ret == GetSrcBlk || ret == Internal ==> availOut == old(availOut) && Out() == old(Out())
      ensures ret == GetSrcBlk ==> source.getblkno == BlockOf(h)
      ensures old(source.loaded) && old(source.curblkno) == BlockOf(h) ==> ret != GetSrcBlk && ret != Internal
      ensures source.refused == old(source.refused) + (if ret == Internal then 1 else 0) && (ret == GetSrcBlk ==> !source.client.Cached?)
      ensures old(source.client) == NoCallback ==> ret != Internal && source.client == NoCallback
      ensures old(NearStart()) ==> ret != GetSrcBlk && ret != Internal && NearStart()
    {
      hide CacheOk, Entry, Execute, Stretch, Output, OutputLeft, AddrCacheOk, TableOk, SourceFile.AllCached, Place,
        Env.Placed, NearStart, Waiting, Runnable;
      var (block, blkoff) := Place(env.blksize, env.cpyoff, h.addr);
      ret := GetBlock(block, h);
      if ret != Zero { return ret, h; }
      if Waiting(env, h, availOut) && env.Placed() { BlockPlace(env, h); }
      ret, left := TakeFromBlock(h, blkoff, block * env.blksize);
    }

    /** What the block at hand, which starts at `lo`, supplies of a copy. */
    method TakeFromBlock(h: Half, blkoff: nat, ghost lo: nat) returns (ret: Ret, left: Half)
      requires Base() && Runnable(env, h, availOut) && FromSource(env, h) && availOut + h.size <= nextOut.Length
      requires blkoff < env.blksize && source.curblk == Stretch(env.S, lo, env.blksize)
      requires Waiting(env, h, availOut) && env.Placed() ==>
        lo + blkoff == env.cpyoff + h.addr && (env.cpyoff + h.addr) % env.blksize == blkoff
      modifies this`availOut, nextOut
      ensures Base() && (ret == Zero || ret == InvalidInput)
      ensures ret == Zero ==> Runnable(env, left, availOut) && availOut + SizeLeft(left) == old(availOut) + h.size
      ensures ret == Zero ==> left == NONE || (left.kind == h.kind && left.size < h.size)
      ensures old(Waiting(env, h, availOut)) && ret == Zero ==> Waiting(env, left, availOut)
      ensures old(Waiting(env, h, availOut)) && ret == Zero && env.Placed() ==>
        OutputLeft(env, left, Data(), Out()) == Output(env, h, old(Data()), old(Out()))
      ensures old(Waiting(env, h, availOut)) && ret == InvalidInput && env.Placed() ==>
        Output(env, h, old(Data()), old(Out())) == None
    {
      hide CacheOk, Entry, Execute, Stretch, Output, AddrCacheOk, TableOk, Env.Placed, SourceFile.Valid;
      var take := h.size;
      ghost var T, good := Out(), Waiting(env, h, availOut) && env.Placed();
      var onblk := |source.curblk|;
      BlockHolds(env.S, env.blksize, lo, blkoff, take);
      if onblk != env.blksize && Wrap(blkoff + take) > onblk {
        if good { ShortSource(env, h, lo, blkoff, Data(), T); }
        return InvalidInput, h;
      }
      left := NONE;
      if Wrap(blkoff + take) > env.blksize {
        take := env.blksize - blkoff;
        left := h.(size := h.size - take, addr := Wrap(h.addr + take));
        if good { CopiedPart(env, h, take, lo, blkoff, source.curblk, Data(), T); }
      } else if good {
        CopiedWhole(env, h, lo, blkoff, source.curblk, Data(), T);
      }
      CopyFromBlock(blkoff, take);
      ret := Zero;
    }

    /** Ask for a block; XD3_TOOFARBACK becomes XD3_INTERNAL. */
    method GetBlock(block: nat, ghost h: Half) returns (ret: Ret)
      requires Base() && FromSource(env, h) && h.addr < USIZE_LIMIT && block == BlockOf(h)
      modifies source
      ensures Base() && ret in {Zero, GetSrcBlk, Internal}
      ensures ret == Zero ==> source.curblk == Block(env.S, env.blksize, block)
      ensures ret == GetSrcBlk ==> source.getblkno == block
      ensures old(source.loaded) && old(source.curblkno) == block ==> ret == Zero
      ensures source.refused == old(source.refused) + (if ret == Internal then 1 else 0) && (ret == GetSrcBlk ==> !source.client.Cached?)
      ensures old(source.client) == NoCallback ==> ret != Internal && source.client == NoCallback
      ensures old(NearStart()) ==> ret == Zero && NearStart()
    {
      hide CacheOk, Block, AddrCacheOk, TableOk, Place, Refuses, UsesAfter;
      if NearStart() {
        FirstBlocks(env, h);
        source.NotRefused(block);
      }
      var answer := source.GetBlk(block);
      ret := if answer == Now then Zero else if answer == Later then GetSrcBlk else Internal;
    }

    /** `xd3_decode_emit`: produce the window, or stop for a source block and be
        called again. However often that happens, the window produced in the end
        is the one the sections stand for, if the copy window can be addressed in
        32 bits. A call that finds the block needed does at least some of what is
        left. When the client refuses a block, nothing is lost: the decoder can be
        called again. */
    method DecodeEmit() returns (ret: Ret)
      requires Valid()
      modifies Repr
      ensures ret != Zero
      ensures ret == GetSrcBlk || ret == Internal ==> Valid() && (env.Placed() ==> Goal() == old(Goal()))
      ensures ret == GetSrcBlk || ret == Internal ==> 0 < Left() <= old(Left()) && (old(Ready()) ==> Left() < old(Left()))
      ensures ret == GetSrcBlk ==> Asked()
      ensures ret == OutputReady ==> availOut == env.tgtlen <= nextOut.Length
      ensures ret == OutputReady && env.Placed() ==> old(Goal()) == Some(nextOut[..availOut])
      ensures ret == InvalidInput && env.Placed() ==> old(Goal()) == None
      ensures source.refused == old(source.refused) + (if ret == Internal then 1 else 0) && (ret == GetSrcBlk ==> !source.client.Cached?)
      ensures old(source.client) == NoCallback ==> ret != Internal && source.client == NoCallback
      ensures old(NearStart()) ==> ret == OutputReady || ret == InvalidInput
    {
      hide Valid, Goal, Ready, Asked, NearStart, Left;
      ghost var goal, left := Goal(), Left();
      InBounds();
      while instPos != |instSect| || current1.kind != NOOP || current2.kind != NOOP
        invariant Valid() && (env.Placed() ==> Goal() == goal) && instPos <= |instSect|
        invariant Left() <= left && (old(Ready()) ==> Left() < left || Ready())
        invariant source.refused == old(source.refused)
        invariant old(source.client) == NoCallback ==> source.client == NoCallback
        invariant old(NearStart()) ==> NearStart()
        decreases |instSect| - instPos, if current1.kind != NOOP || current2.kind != NOOP then 1 else 0
      {
        InBounds();
        if current1.kind == NOOP && current2.kind == NOOP {
          NotReady();
          var ok := DecodeInstruction();
          if !ok { return InvalidInput; }
        }
        ret := OutputBoth();
        if ret != Zero { return; }
        InBounds();
      }
      ret := EndWindow();
    }

    /** Carry out both halves. */
    method OutputBoth() returns (ret: Ret)
      requires Valid()
      modifies this`dataPos, this`availOut, this`current1, this`current2, nextOut, source
      ensures ret != OutputReady && (ret == Zero ==> current1.kind == NOOP && current2.kind == NOOP)
      ensures ret != InvalidInput ==> Valid() && (env.Placed() ==> Goal() == old(Goal()))
      ensures ret != InvalidInput ==> Left() <= old(Left()) && (old(Ready()) ==> Left() < old(Left()))
      ensures ret == GetSrcBlk || ret == Internal ==> 0 < Left()
      ensures ret == GetSrcBlk ==> Asked()
      ensures ret == InvalidInput && env.Placed() ==> old(Goal()) == None
      ensures source.refused == old(source.refused) + (if ret == Internal then 1 else 0) && (ret == GetSrcBlk ==> !source.client.Cached?)
      ensures old(source.client) == NoCallback ==> ret != Internal && source.client == NoCallback
      ensures old(NearStart()) ==> ret != GetSrcBlk && ret != Internal && NearStart()
    {
      hide Valid, Goal, Ready, Asked, NearStart, Left;
      ghost var goal, left := Goal(), Left();
      InBounds();
      while current1.kind != NOOP
        invariant Valid() && (env.Placed() ==> Goal() == goal)
        invariant Left() <= left && (old(Ready()) ==> Left() < left || Ready())
        invariant source.refused == old(source.refused)
        invariant old(source.client) == NoCallback ==> source.client == NoCallback
        invariant old(NearStart()) ==> NearStart()
        decreases SizeLeft(current1) + if current1.kind != NOOP then 1 else 0
      {
        ret := OutputFirst();
        if ret != Zero { return; }
      }
      while current2.kind != NOOP
        invariant Valid() && (env.Placed() ==> Goal() == goal) && current1.kind == NOOP
        invariant Left() <= left && (old(Ready()) ==> Left() < left || Ready())
        invariant source.refused == old(source.refused)
        invariant old(source.client) == NoCallback ==> source.client == NoCallback
        invariant old(NearStart()) ==> NearStart()
        decreases SizeLeft(current2) + if current2.kind != NOOP then 1 else 0
      {
        ret := OutputSecond();
        if ret != Zero { return; }
      }
      NotReady();
      ret := Zero;
    }

    lemma InBounds()
      requires Valid()
      ensures instPos <= |instSect| && env.Valid() && 0 <= Left()
      ensures Repr == {this, source, acache, acache.nearArray, acache.sameArray, codeTable, nextOut}
    {
    }

    lemma NotReady()
      requires Valid() && current1.kind == NOOP && current2.kind == NOOP
      ensures !Ready()
    {
    }

    /** The checks at the end of a window. */
    method EndWindow() returns (ret: Ret)
      requires Valid() && instPos == |instSect| && current1.kind == NOOP && current2.kind == NOOP
      ensures ret == OutputReady || ret == InvalidInput
      ensures ret == OutputReady ==> availOut == env.tgtlen <= nextOut.Length && Goal() == Some(nextOut[..availOut])
      ensures ret == InvalidInput ==> Goal() == None
    {
      hide CacheOk, Output, Run, Entry, Rest, OutputLeft, TableOk;
      if availOut <= env.tgtlen { RestDone(env, current1, current2, View()); }
      if availOut != env.tgtlen { return InvalidInput; }
      if dataPos != |dataSect| { return InvalidInput; }
      if addrPos != |addrSect| { return InvalidInput; }
      ret := OutputReady;
    }

    /** One call for `current1`. */
    method OutputFirst() returns (ret: Ret)
      requires Valid() && current1.kind != NOOP
      modifies this`dataPos, this`availOut, this`current1, nextOut, source
      ensures ret != OutputReady
      ensures ret != InvalidInput ==> Valid() && (env.Placed() ==> Goal() == old(Goal()))
      ensures ret == Zero ==> (current1 == NONE || current1.size < old(current1.size)) && Left() < old(Left())
      ensures ret == InvalidInput && env.Placed() ==> old(Goal()) == None
      ensures ret == GetSrcBlk ==> Asked()
      ensures ret == GetSrcBlk || ret == Internal ==> 0 < Left() == old(Left()) && !old(Ready())
      ensures source.refused == old(source.refused) + (if ret == Internal then 1 else 0) && (ret == GetSrcBlk ==> !source.client.Cached?)
      ensures old(source.client) == NoCallback ==> ret != Internal && source.client == NoCallback
      ensures old(NearStart()) ==> ret != GetSrcBlk && ret != Internal && NearStart()
    {
      hide CacheOk, Output, Run, Entry, Rest, OutputLeft, TableOk, Place, SourceFile.Valid, SourceFile.AllCached;
      ghost var st, h1, good := View(), current1, Reach() <= env.tgtlen;
      var left;
      ret, left := OutputHalfinst(current1);
      if ret == Zero {
        if good && env.Placed() { RestFirst(env, h1, current2, st, left, Data(), Out()); }
        current1 := left;
      } else if ret == InvalidInput && good && env.Placed() {
        RestFails(env, h1, current2, st);
      }
    }

    /** One call for `current2`, when `current1` is done. */
    method OutputSecond() returns (ret: Ret)
      requires Valid() && current1.kind == NOOP && current2.kind != NOOP
      modifies this`dataPos, this`availOut, this`current2, nextOut, source
      ensures ret != OutputReady
      ensures ret != InvalidInput ==> Valid() && (env.Placed() ==> Goal() == old(Goal()))
      ensures ret == Zero ==> (current2 == NONE || current2.size < old(current2.size)) && Left() < old(Left())
      ensures ret == InvalidInput && env.Placed() ==> old(Goal()) == None
      ensures ret == GetSrcBlk ==> Asked()
      ensures ret == GetSrcBlk || ret == Internal ==> 0 < Left() == old(Left()) && !old(Ready())
      ensures source.refused == old(source.refused) + (if ret == Internal then 1 else 0) && (ret == GetSrcBlk ==> !source.client.Cached?)
      ensures old(source.client) == NoCallback ==> ret != Internal && source.client == NoCallback
      ensures old(NearStart()) ==> ret != GetSrcBlk && ret != Internal && NearStart()
    {
      hide CacheOk, Output, Run, Entry, Rest, OutputLeft, TableOk, Place, SourceFile.Valid, SourceFile.AllCached;
      ghost var st, h2, good := View(), current2, Reach() <= env.tgtlen;
      var left;
      ret, left := OutputHalfinst(current2);
      if ret == Zero {
        if good && env.Placed() { RestSecond(env, current1, h2, st, left, Data(), Out()); }
        current2 := left;
      } else if ret == InvalidInput && good && env.Placed() {
        RestFails(env, current1, h2, st);
      }
    }

    /** The application supplies the block asked for. */
    method SupplyBlock()
      requires Valid() && Asked()
      modifies source
      ensures Valid() && Ready() && Goal() == old(Goal()) && Left() == old(Left()) && source.client == old(source.client)
      ensures source.refused == old(source.refused)
    {
      hide CacheOk, Rest, TableOk, Place, Waiting, Runnable;
      source.Supply();
    }
  }

  /** Both halves of an opcode, and what is left of the sections. */
  datatype Both = Both(h1: Half, h2: Half, inst: seq<byte>, addr: seq<byte>, cache: Cache)

  function ParsedBoth(env: Env, e: DInst, inst: seq<byte>, addr: seq<byte>, c: Cache, pos: nat): Option<Both>
    requires env.Valid() && TableEntry(e) && CacheOk(c) && pos <= env.cpylen + env.tgtlen
  {
    var p1 :- ParseHalf(env, e.type1, e.size1, inst, addr, c, pos);
    if e.type2 == NOOP then Some(Both(p1.h, NONE, p1.inst, p1.addr, p1.cache))
    else
      var p2 :- ParseHalf(env, e.type2, e.size2, p1.inst, p1.addr, p1.cache, p1.pos);
      Some(Both(p1.h, p2.h, p2.inst, p2.addr, p2.cache))
  }

  function Tail(st: State): State
    requires st.inst != []
  {
    st.(inst := st.inst[1..])
  }

  /** Halves that were parsed can wait to be carried out. */
  lemma BothOk(env: Env, e: DInst, st: State)
    requires StateOk(env, st) && TableEntry(e)
    ensures var p := ParsedBoth(env, e, st.inst, st.addr, st.cache, env.cpylen + |st.out|);
      p.Some? ==>
        && Waiting(env, p.value.h1, |st.out|) && Waiting(env, p.value.h2, |st.out| + SizeLeft(p.value.h1))
        && |st.out| + SizeLeft(p.value.h1) + SizeLeft(p.value.h2) <= env.tgtlen && CacheOk(p.value.cache)
  {
    hide ParseHalf, CacheOk;
  }

  lemma RestBoth(env: Env, n1: Half, n2: Half, st: State)
    requires StateOk(env, st) && st.inst != [] && n1.kind == NOOP && n2.kind == NOOP
    ensures var e := Entry(st.inst[0]);
      var p := ParsedBoth(env, e, st.inst[1..], st.addr, st.cache, env.cpylen + |st.out|);
      match p
      case None => Rest(env, n1, n2, st) == None
      case Some(b) =>
        && Waiting(env, b.h1, |st.out|) && Waiting(env, b.h2, |st.out| + SizeLeft(b.h1)) && CacheOk(b.cache)
        && Rest(env, n1, n2, st) == Rest(env, b.h1, b.h2, State(b.inst, st.data, b.addr, b.cache, st.out))
  {
    hide ParseHalf, CacheOk, Rest, Entry;
    BothOk(env, Entry(st.inst[0]), Tail(st));
    RestStep(env, n1, n2, st);
  }

  lemma PosWraps(pos: nat)
    ensures pos < USIZE_LIMIT ==> pos % USIZE_LIMIT == pos
    ensures pos % USIZE_LIMIT <= pos
  {
  }

  lemma AddWraps(pos: nat, size: nat)
    requires size < USIZE_LIMIT
    ensures Wrap(pos % USIZE_LIMIT + size) == (pos + size) % USIZE_LIMIT
  {
  }

  lemma ReadFits(s: seq<byte>)
    ensures var r := ReadFrom(0, s, OFLOW32); r.Ok? ==> r.value < USIZE_LIMIT
  {
    var r := ReadFrom(0, s, OFLOW32);
    if r.Ok? {
      OverflowBound(0, s, OFLOW32);
      OverflowIff(0, s, OFLOW32);
    }
  }

  lemma StartOk(env: Env, inst: seq<byte>, data: seq<byte>, addr: seq<byte>)
    requires env.Valid()
    ensures var st := State(inst, data, addr, Empty(NEAR_MODES, SAME_MODES), []);
      CacheOk(st.cache) && Waiting(env, NONE, 0) && Runnable(env, NONE, 0)
      && env.cpylen % USIZE_LIMIT == env.cpylen && Rest(env, NONE, NONE, st) == Decode(env, inst, data, addr)
  {
    hide Run;
  }

  /** The bytes of a run or an ADD. */
  function LiteralBytes(h: Half, data: seq<byte>): (b: seq<byte>)
    requires (h.kind == RUN && data != []) || (h.kind == ADD && h.size <= |data|)
    ensures |b| == h.size
  {
    if h.kind == RUN then seq(h.size, _ => data[0]) else data[..h.size]
  }

  lemma LiteralExec(env: Env, h: Half, data: seq<byte>, T: seq<byte>)
    requires env.Valid() && (h.kind == RUN || h.kind == ADD) && Fits(Resolve(env, h, |T|), |data|, |env.S|)
    ensures (h.kind == RUN && data != []) || (h.kind == ADD && h.size <= |data|)
    ensures T + LiteralBytes(h, data) == Execute(Resolve(env, h, |T|), h.size, data, env.S, T)
  {
    hide Execute, Shows, LiteralBytes;
    var w, U := Resolve(env, h, |T|), T + LiteralBytes(h, data);
    forall k: nat | k < w.size ensures Shows(w, k, data, env.S, U) {
      LiteralShows(env, h, data, T, k);
    }
    ExecuteReproduces(w, w.size, data, env.S, U);
    assert U[..|T|] == T && U[..|T| + w.size] == U;
  }

  lemma LiteralShows(env: Env, h: Half, data: seq<byte>, T: seq<byte>, k: nat)
    requires env.Valid() && (h.kind == RUN || h.kind == ADD) && Fits(Resolve(env, h, |T|), |data|, |env.S|) && k < h.size
    ensures (h.kind == RUN && data != []) || (h.kind == ADD && h.size <= |data|)
    ensures Shows(Resolve(env, h, |T|), k, data, env.S, T + LiteralBytes(h, data))
  {
  }

  /** A copy made byte by byte, even over what it is writing. */
  lemma CopyExec(env: Env, h: Half, data: seq<byte>, T: seq<byte>, U: seq<byte>)
    requires env.Valid() && h.kind >= CPY && env.cpylen <= h.addr < env.cpylen + |T| && |U| == |T| + h.size
    requires Fits(Resolve(env, h, |T|), |data|, |env.S|)
    requires U[..|T|] == T && forall j | |T| <= j < |U| :: U[j] == U[j - |T| + (h.addr - env.cpylen)]
    ensures U == Execute(Resolve(env, h, |T|), h.size, data, env.S, T)
  {
    hide Execute;
    var w := Resolve(env, h, |T|);
    forall k: nat | k < w.size ensures Shows(w, k, data, env.S, U) {
      assert U[|T| + k] == U[|T| + k - |T| + (h.addr - env.cpylen)];
    }
    ExecuteReproduces(w, w.size, data, env.S, U);
    assert U[..|T| + w.size] == U;
  }

  lemma ModOfSum(n: nat, b: nat, off: nat)
    requires off < b
    ensures (n * b + off) % b == off
  {
    var x := n * b + off;
    var d := x / b - n;
    assert b * d == off - x % b;
    MultipleFar(b, d);
  }

  /** The block and offset found for a copy are where its first byte lies. */
  lemma BlockPlace(env: Env, h: Half)
    requires env.Valid() && env.Placed() && h.addr < env.cpylen && env.blksize <= USIZE_LIMIT
    ensures var (block, blkoff) := Place(env.blksize, env.cpyoff, h.addr);
      && block * env.blksize + blkoff == env.cpyoff + h.addr
      && (env.cpyoff + h.addr) % env.blksize == blkoff
  {
    var (block, blkoff) := Place(env.blksize, env.cpyoff, h.addr);
    PlacedIff(env.blksize, env.cpyoff, env.cpylen);
    assert PlacedRight(env.blksize, env.cpyoff, h.addr);
    ModOfSum(block, env.blksize, blkoff);
  }

  /** A copy window in the first blocks needs only those. */
  lemma FirstBlocks(env: Env, h: Half)
    requires env.Valid() && env.Placed() && h.addr < env.cpylen && env.blksize <= USIZE_LIMIT
    requires env.cpyoff + env.cpylen <= MAX_SOURCE_BLOCKS * env.blksize
    ensures Place(env.blksize, env.cpyoff, h.addr).0 < MAX_SOURCE_BLOCKS
  {
    BlockPlace(env, h);
    var (block, blkoff) := Place(env.blksize, env.cpyoff, h.addr);
    MultipleFar(env.blksize, block - MAX_SOURCE_BLOCKS);
  }

  /** A block too short for what is wanted of it makes the copy fail. */
  lemma ShortSource(env: Env, h: Half, lo: nat, off: nat, data: seq<byte>, out: seq<byte>)
    requires env.Valid() && Waiting(env, h, |out|) && h.kind >= CPY && h.addr < env.cpylen
    requires off < env.blksize && lo + off == env.cpyoff + h.addr && (env.cpyoff + h.addr) % env.blksize == off
    requires var n := |Stretch(env.S, lo, env.blksize)|; n != env.blksize && off + h.size > n
    ensures Output(env, h, data, out) == None
  {
  }

  /** What a copy finished by this block has written. */
  lemma CopiedWhole(env: Env, h: Half, lo: nat, off: nat, blk: seq<byte>, data: seq<byte>, out: seq<byte>)
    requires env.Valid() && Waiting(env, h, |out|) && h.kind >= CPY && h.addr < env.cpylen
    requires off < env.blksize && lo + off == env.cpyoff + h.addr && (env.cpyoff + h.addr) % env.blksize == off
    requires blk == Stretch(env.S, lo, env.blksize) && off + h.size <= |blk|
    ensures Output(env, h, data, out) == Some((data, out + blk[off..off + h.size]))
  {
    BlockHolds(env.S, env.blksize, lo, off, h.size);
    var w := Resolve(env, h, |out|);
    assert data[Used(h)..] == data;
    if h.size == 0 {
      assert out + blk[off..off] == out;
    } else {
      SourceBytes(w, h.size, data, env.S, out);
    }
  }

  /** After one block's part of a copy, the rest of it still stands for what
      the whole did. */
  lemma CopiedPart(env: Env, h: Half, take: nat, lo: nat, off: nat, blk: seq<byte>,
                   data: seq<byte>, out: seq<byte>)
    requires env.Valid() && Waiting(env, h, |out|) && h.kind >= CPY && h.addr < env.cpylen
    requires off < env.blksize && lo + off == env.cpyoff + h.addr && blk == Stretch(env.S, lo, env.blksize)
    requires take == env.blksize - off && off + take <= |blk| && take < h.size
    ensures Output(env, h.(size := h.size - take, addr := h.addr + take), data, out + blk[off..off + take])
         == Output(env, h, data, out)
  {
    hide Output;
    BlockHolds(env.S, env.blksize, lo, off, take);
    OutputSplit(env, h, take, data, out, out + blk[off..off + take]);
  }
}
