/** Matching the input against the source: matches found by checksum are extended
    over source blocks in both directions, with stops for missing blocks. */
module SourceMatch {
  import opened Bytes
  import opened Delta
  import opened Window
  import SourceFiles
  import opened Iopt

  predicate IntEqual(a: seq<byte>, i: nat, b: seq<byte>, j: nat)
    requires i + 4 <= |a| && j + 4 <= |b|
  {
    a[i..i + 4] == b[j..j + 4]
  }

  lemma IntSame(a: seq<byte>, i: nat, b: seq<byte>, j: nat, k: nat)
    requires Same(a, i, b, j, 4 * k) && i + 4 * k + 4 <= |a| && j + 4 * k + 4 <= |b|
    requires IntEqual(a, i + 4 * k, b, j + 4 * k)
    ensures Same(a, i, b, j, 4 * (k + 1))
  {
    forall m: nat | m < 4 * (k + 1) ensures SameAt(a, i, b, j, m) {
      if m < 4 * k {
        assert SameAt(a, i, b, j, m);
      } else {
        var o := m - 4 * k;
        assert a[i + 4 * k..i + 4 * k + 4][o] == b[j + 4 * k..j + 4 * k + 4][o];
      }
    }
  }

  /** `xd3_forward_match`: eight integers at a time, then byte by byte. It finds
      the longest common prefix of up to `n` bytes. */
  method ForwardMatch(a: seq<byte>, i0: nat, b: seq<byte>, j0: nat, n: nat) returns (i: nat)
    requires i0 + n <= |a| && j0 + n <= |b|
    ensures i <= n && Same(a, i0, b, j0, i)
    ensures i < n ==> a[i0 + i] != b[j0 + i]
  {
    i := 0;
    var nint := n / 4;
    if nint / 8 != 0 {
      var nint8 := nint - 8;
      var equal := true;
      while equal && i <= nint8
        invariant i <= nint && (if equal then true else i > 0)
        invariant Same(a, i0, b, j0, 4 * (if equal then i else i - 1))
        invariant i == 0 ==> equal
        decreases nint - i
      {
        var u := 0;
        ghost var start := i;
        while u < 8 && equal
          invariant 0 <= u <= 8 && i == start + u && (!equal ==> u > 0)
          invariant Same(a, i0, b, j0, 4 * (if equal then i else i - 1))
        {
          equal := IntEqual(a, i0 + 4 * i, b, j0 + 4 * i);
          if equal { IntSame(a, i0, b, j0, i); }
          i := i + 1;
          u := u + 1;
        }
      }
      SamePart(a, i0, b, j0, 4 * (if equal then i else i - 1), 0, 4 * (i - 1));
      i := (i - 1) * 4;
    }
    while i < n && a[i0 + i] == b[j0 + i]
      invariant i <= n && Same(a, i0, b, j0, i)
    {
      assert SameAt(a, i0, b, j0, i);
      i := i + 1;
    }
  }

  function BlockStart(b: nat, k: nat): nat {
    k * b
  }

  /** The last block seen, its size, and whether it is known to end the source. The
      end, once known, is the real end, but for a source shorter than a block it
      may be taken to be the end of the block. */
  ghost predicate EndOk(S: seq<byte>, b: nat, maxBlkno: nat, onLastBlk: nat, known: bool) {
    var size := |SourceFiles.Block(S, b, maxBlkno)|;
    && BlockStart(b, maxBlkno) <= Max(|S|, b)
    && (known ==> |S| <= BlockStart(b, maxBlkno) + onLastBlk <= Max(|S|, b) && size == onLastBlk)
    && (maxBlkno > 0 && size < b ==> known)
  }

  /** A match found: a source copy for the instruction buffer. */
  ghost predicate SourceCopy(S: seq<byte>, input: seq<byte>, r: RInst) {
    && r.kind == CPY && r.xtra == 1 && 0 < r.size && End(r) <= |input|
    && r.addr + r.size <= |S| && Same(input, r.pos, S, r.addr, r.size)
  }

  ghost predicate Within(r: RInst, lo: nat, hi: nat) {
    lo <= r.addr && r.addr + r.size <= hi
  }

  /** The source window `[lo, hi)`. */
  function WinEnv(S: seq<byte>, input: seq<byte>, lo: nat, hi: nat): Env
    requires lo <= hi
  {
    Env(S, 1, lo, hi - lo, |input|)
  }

  /** An instruction found: it writes what the input holds; if it copies from the
      source, then from between `lo` and `hi`. */
  ghost predicate Sound(S: seq<byte>, input: seq<byte>, r: RInst, lo: nat, hi: nat)
    requires lo <= hi
  {
    Reproduces(WinEnv(S, input, lo, hi), input, r)
  }

  ghost predicate AllSound(S: seq<byte>, input: seq<byte>, l: seq<RInst>, lo: nat, hi: nat)
    requires lo <= hi
  {
    forall i | 0 <= i < |l| :: Sound(S, input, l[i], lo, hi)
  }

  predicate HasCopy(l: seq<RInst>) {
    exists i :: 0 <= i < |l| && l[i].kind == CPY
  }

  /** A wider range, or any other if nothing is copied from the source. */
  lemma SoundIn(S: seq<byte>, input: seq<byte>, r: RInst, lo: nat, hi: nat, lo': nat, hi': nat)
    requires lo <= hi && lo' <= hi' && Sound(S, input, r, lo, hi)
    requires r.kind != CPY || hi == 0 || (lo' <= lo && hi <= hi')
    ensures Sound(S, input, r, lo', hi')
  {
    hide Same;
  }

  lemma AllSoundIn(S: seq<byte>, input: seq<byte>, l: seq<RInst>, lo: nat, hi: nat, lo': nat, hi': nat)
    requires lo <= hi && lo' <= hi' && AllSound(S, input, l, lo, hi)
    requires !HasCopy(l) || hi == 0 || (lo' <= lo && hi <= hi')
    ensures AllSound(S, input, l, lo', hi')
  {
    hide Sound;
    forall i | 0 <= i < |l| ensures Sound(S, input, l[i], lo', hi') {
      SoundIn(S, input, l[i], lo, hi, lo', hi');
    }
  }

  lemma CopySound(S: seq<byte>, input: seq<byte>, r: RInst, lo: nat, hi: nat)
    requires SourceCopy(S, input, r) && lo <= hi && Within(r, lo, hi)
    ensures Sound(S, input, r, lo, hi)
  {
    hide Same;
  }

  /** Compaction keeps instructions sound. */
  lemma CompactSound(S: seq<byte>, input: seq<byte>, l: seq<RInst>, lo: nat, hi: nat, from: nat)
    requires lo <= hi && ListOk(l) && AllSound(S, input, l, lo, hi) && From(l, from)
    ensures var c := Compact(l, 0, false);
      && ListOk(c) && AllSound(S, input, c, lo, hi) && From(c, from) && Disjoint(c, if c == [] then 0 else |c| - 1)
  {
    hide Reproduces, Compact;
    var env := WinEnv(S, input, lo, hi);
    assert AllReproduce(env, input, l) by {
      forall i | 0 <= i < |l| ensures Reproduces(env, input, l[i]) { assert Sound(S, input, l[i], lo, hi); }
    }
    CompactOk(env, input, l, 0, false, from);
    var c := Compact(l, 0, false);
    forall i | 0 <= i < |c| ensures Sound(S, input, c[i], lo, hi) { assert Reproduces(env, input, c[i]); }
  }

  lemma ForcedSound(S: seq<byte>, input: seq<byte>, l: seq<RInst>, lo: nat, hi: nat, from: nat)
    requires lo <= hi && ListOk(l) && AllSound(S, input, l, lo, hi) && From(l, from)
    ensures var c := Compact(l, 0, true); AllSound(S, input, c, lo, hi) && From(c, from) && Disjoint(c, |c|)
  {
    hide Reproduces, Compact;
    var env := WinEnv(S, input, lo, hi);
    assert AllReproduce(env, input, l) by {
      forall i | 0 <= i < |l| ensures Reproduces(env, input, l[i]) { assert Sound(S, input, l[i], lo, hi); }
    }
    CompactOk(env, input, l, 0, true, from);
    var c := Compact(l, 0, true);
    forall i | 0 <= i < |c| ensures Sound(S, input, c[i], lo, hi) { assert Reproduces(env, input, c[i]); }
  }

  /** Where the source window lies matters, not the size of blocks. */
  lemma AnyBlksize(S: seq<byte>, b: nat, input: seq<byte>, l: seq<RInst>, srcbase: nat, srclen: nat)
    requires AllSound(S, input, l, srcbase, srcbase + srclen)
    ensures AllReproduce(Env(S, b, srcbase, srclen, |input|), input, l)
  {
    hide Same;
    forall i | 0 <= i < |l| ensures Reproduces(Env(S, b, srcbase, srclen, |input|), input, l[i]) {
      assert Sound(S, input, l[i], srcbase, srcbase + srclen);
    }
  }

  /** Those encoded, and more of them. */
  ghost predicate GoneOk(S: seq<byte>, input: seq<byte>, gone: seq<RInst>, unencoded: nat, lo: nat, hi: nat)
    requires lo <= hi
  {
    && AllSound(S, input, gone, lo, hi) && Disjoint(gone, |gone|)
    && (if gone == [] then unencoded == 0 else unencoded == End(gone[|gone| - 1]))
  }

  lemma GoneMore(S: seq<byte>, input: seq<byte>, gone: seq<RInst>, unencoded: nat, lo: nat, hi: nat, c: seq<RInst>, n: nat)
    requires lo <= hi && GoneOk(S, input, gone, unencoded, lo, hi)
    requires n <= |c| && AllSound(S, input, c[..n], lo, hi) && From(c, unencoded) && Disjoint(c, n)
    ensures GoneOk(S, input, gone + c[..n], if n == 0 then unencoded else End(c[n - 1]), lo, hi)
  {
    hide Sound;
    var g := gone + c[..n];
    forall i, j | 0 <= i < j < |g| ensures Apart(g[i], g[j]) {
      if i < |gone| <= j {
        assert i < |gone| - 1 ==> Apart(gone[i], gone[|gone| - 1]);
      }
    }
  }

  datatype MatchState = TargetMatch | Forward | Backward | Searching

  /** 0, XD3_GETSRCBLK, XD3_TOOFARBACK, XD3_INTERNAL. `Overlaps` is no answer of
      the original: a flush has gone wrong and is not noticed. */
  datatype Ret = Zero | GetSrcBlk | TooFarBack | Internal | Overlaps

  class Matcher {
    const S: seq<byte>
    const blksize: nat
    const input: seq<byte>
    const maxWinsize: nat
    /** How much input the windows before had. */
    const totalIn: nat
    /** The size of the instruction buffer; zero if it grows. */
    const ioptSize: nat
    /** The client has every block at hand. */
    const prompt: bool
    /** The list and the new instruction of a flush that went wrong. */
    ghost var clash: (seq<RInst>, RInst)

    // xd3_source
    var curblkno: nat
    var curblk: seq<byte>
    var loaded: bool
    var maxBlkno: nat
    var onLastBlk: nat
    var eofKnown: bool
    var srcbase: nat
    var srclen: nat

    // xd3_stream
    var cksumPos: nat
    var maxsrcaddr: nat
    var unencoded: nat
    var inputPosition: nat
    var minMatch: nat
    var encInstr: bool
    var decided: bool
    var taroff: nat
    var state: MatchState
    var srcpos: nat
    var lastSrcpos: nat
    var maxback: nat
    var maxfwd: nat
    var back: nat
    var fwd: nat
    var minaddr: nat
    var maxaddr: nat
    /** The instruction buffer, and what was encoded out of it. */
    var found: seq<RInst>
    var gone: seq<RInst>

    /** The instruction buffer grows, or has room for an instruction at every position
        of the input. */
    predicate Roomy() {
      ioptSize == 0 || |input| <= ioptSize
    }

    /** What a flush found when it went wrong: a full buffer of which compaction leaves
        just one or two instructions, and the one encoded overlaps what comes behind
        it. */
    ghost predicate Clash()
      reads this`clash
    {
      0 < ioptSize <= |clash.0| && BadFlush(clash.0, clash.1)
    }

    /** `xd3_source_eof`. */
    function Eof(): nat
      reads this`maxBlkno, this`onLastBlk
    {
      BlockStart(blksize, maxBlkno) + onLastBlk
    }

    /** The block at hand is a block of the source. */
    ghost predicate SourceOk()
      reads this`loaded, this`curblk, this`curblkno, this`eofKnown, this`maxBlkno, this`onLastBlk
    {
      && 0 < blksize < USIZE_LIMIT && (loaded ==> curblk == SourceFiles.Block(S, blksize, curblkno))
      && EndOk(S, blksize, maxBlkno, onLastBlk, eofKnown)
    }

    /** The instructions found are sound and in order, their source copies in the
        range of addresses kept, and in the source window once that is decided.
        Those gone do not overlap, and the others start behind them. */
    ghost predicate FoundOk()
      reads this`found, this`gone, this`unencoded, this`minaddr, this`maxaddr, this`decided, this`srcbase, this`srclen
    {
      && minaddr <= maxaddr <= |S| && AllSound(S, input, found, minaddr, maxaddr)
      && ListOk(found) && From(found, unencoded)
      && GoneOk(S, input, gone, unencoded, srcbase, srcbase + srclen) && (!decided ==> !HasCopy(gone))
      && (decided && 0 < maxaddr ==> srcbase <= minaddr && maxaddr <= srcbase + srclen)
      && (!decided ==> srcbase == 0 && srclen == 0) && srclen <= Max(|S|, |input| + |input| / 4)
      && (0 < maxaddr ==> minaddr < maxaddr) && (srclen == 0 ==> srcbase == 0) && srcbase <= |S|
    }

    /** The match in progress: what was matched so far is equal, and its limits
        stay in the input, in the source and in the source window. */
    ghost predicate MatchOk()
      reads this`srcpos, this`fwd, this`back, this`maxback, this`maxfwd, this`inputPosition, this`unencoded, this`decided, this`srcbase, this`srclen
    {
      && srcpos + fwd <= |S| && back <= maxback && maxback <= srcpos && maxback + unencoded <= inputPosition
      && fwd <= maxfwd && inputPosition + maxfwd <= |input|
      && Same(input, inputPosition - back, S, srcpos - back, back)
      && Same(input, inputPosition, S, srcpos, fwd)
      && (decided ==> srcbase <= srcpos - maxback && srcpos + maxfwd <= srcbase + srclen)
    }

    /** The shortest match allowed ends after the last instruction. */
    ghost predicate MinMatchOk()
      reads this`minMatch, this`found, this`inputPosition
    {
      && MIN_MATCH <= minMatch
      && (found != [] ==> found[|found| - 1].pos < inputPosition && End(found[|found| - 1]) < inputPosition + minMatch)
    }

    ghost predicate Valid()
      reads this`loaded, this`curblk, this`curblkno, this`eofKnown, this`maxBlkno, this`onLastBlk, this`found, this`gone, this`unencoded, this`minaddr, this`maxaddr, this`decided, this`srcbase, this`srclen, this`inputPosition, this`cksumPos, this`maxsrcaddr
    {
      SourceOk() && FoundOk() && unencoded <= inputPosition <= |input| && cksumPos <= Max(|S|, blksize) && maxsrcaddr <= |S|
    }

    /** The first window, before any block was read. */
    constructor (S: seq<byte>, blksize: nat, prompt: bool, maxWinsize: nat, ioptSize: nat, input: seq<byte>)
      requires 0 < blksize < USIZE_LIMIT
      ensures Valid() && MinMatchOk() && Fresh() && state == TargetMatch && srcpos == 0
      ensures this.S == S && this.blksize == blksize && this.ioptSize == ioptSize && this.input == input
      ensures this.prompt == prompt && minaddr == 0 && maxaddr == 0 && totalIn == 0 && this.maxWinsize == maxWinsize
    {
      this.S, this.blksize, this.prompt, this.maxWinsize, this.ioptSize, this.input := S, blksize, prompt, maxWinsize, ioptSize, input;
      totalIn := 0;
      curblkno, curblk, loaded, maxBlkno, onLastBlk, eofKnown := 0, [], false, 0, 0, false;
      srcbase, srclen, cksumPos, maxsrcaddr, unencoded, inputPosition, minMatch := 0, 0, 0, 0, 0, 0, MIN_MATCH;
      encInstr, decided, taroff, state, srcpos, lastSrcpos := false, false, 0, TargetMatch, 0, 0;
      maxback, maxfwd, back, fwd, minaddr, maxaddr, found, gone := 0, 0, 0, 0, 0, 0, [], [];
    }

    /** The next window: `xd3_encode_reset`, and the start of a window in
        `xd3_encode_input`. What is known of the source stays. */
    constructor Next(prev: Matcher, input: seq<byte>)
      requires prev.Valid()
      ensures Valid() && MinMatchOk() && Fresh()
      ensures S == prev.S && blksize == prev.blksize && ioptSize == prev.ioptSize && this.input == input
      ensures prompt == prev.prompt && minaddr == 0 && maxaddr == 0 && totalIn == prev.totalIn + |prev.input|
      ensures maxWinsize == prev.maxWinsize
      ensures state == prev.state && srcpos == prev.srcpos
    {
      S, blksize, prompt, maxWinsize, ioptSize, this.input :=
        prev.S, prev.blksize, prev.prompt, prev.maxWinsize, prev.ioptSize, input;
      totalIn := prev.totalIn + |prev.input|;
      curblkno, curblk, loaded := prev.curblkno, prev.curblk, prev.loaded;
      maxBlkno, onLastBlk, eofKnown := prev.maxBlkno, prev.onLastBlk, prev.eofKnown;
      srcbase, srclen, cksumPos, maxsrcaddr := 0, 0, prev.cksumPos, prev.maxsrcaddr;
      unencoded, inputPosition, minMatch := 0, 0, MIN_MATCH;
      encInstr, decided, taroff, state, srcpos, lastSrcpos := false, false, 0, prev.state, prev.srcpos, prev.lastSrcpos;
      maxback, maxfwd, back, fwd, minaddr, maxaddr, found, gone := 0, 0, prev.back, prev.fwd, 0, 0, [], [];
    }

    /** Nothing of the window has been looked at. */
    ghost predicate Fresh()
      reads this`found, this`gone, this`decided, this`inputPosition
    {
      found == [] && gone == [] && !decided && inputPosition == 0
    }

    /** `xd3_getblk`, with any client behind it. */
    method GetBlk(blkno: nat) returns (ret: Ret)
      requires SourceOk() && BlockStart(blksize, blkno) <= Max(|S|, blksize)
      modifies this`curblkno, this`curblk, this`loaded, this`maxBlkno, this`onLastBlk, this`eofKnown
      ensures SourceOk() && ret in {Zero, GetSrcBlk, TooFarBack} && (prompt ==> ret == Zero)
      ensures ret == Zero && |curblk| < blksize && !eofKnown ==> blkno == 0
      ensures old(loaded) && blkno == old(curblkno) ==> ret == Zero
      ensures ret != TooFarBack ==> loaded && curblkno == blkno && curblk == SourceFiles.Block(S, blksize, blkno)
      ensures ret == TooFarBack ==> loaded == old(loaded) && curblkno == old(curblkno) && curblk == old(curblk)
      ensures ret != Zero ==> maxBlkno == old(maxBlkno) && onLastBlk == old(onLastBlk) && eofKnown == old(eofKnown)
      ensures ret == Zero ==> maxBlkno == Max(old(maxBlkno), blkno)
      ensures ret == Zero ==> onLastBlk == if blkno >= old(maxBlkno) then |curblk| else old(onLastBlk)
      ensures ret == Zero ==> eofKnown == (old(eofKnown) || (blkno > old(maxBlkno) && |curblk| != blksize))
    {
      hide SourceFiles.Block, EndOk, BlockStart;
      if !loaded || blkno != curblkno {
        var client: nat := *;
        if prompt { client := 2; }
        if client == 0 {
          return TooFarBack;
        } else if client == 1 {
          curblkno, curblk, loaded := blkno, SourceFiles.Block(S, blksize, blkno), true;
          return GetSrcBlk;
        }
        curblkno, curblk, loaded := blkno, SourceFiles.Block(S, blksize, blkno), true;
      }
      NextBlock(S, blksize, blkno, maxBlkno, onLastBlk, eofKnown);
      if blkno > maxBlkno {
        maxBlkno := blkno;
        if |curblk| != blksize && !eofKnown {
          eofKnown := true;
        }
      }
      if blkno == maxBlkno {
        onLastBlk := |curblk|;
      }
      ret := Zero;
    }

    /** `xd3_source_match_setup`: limits for a match that starts at `pos`. `floor`
        is as far back as the input may be matched: the last position matched, or
        the unencoded offset. */
    method MatchSetup(pos: nat, floor: nat) returns (ok: bool)
      requires Valid() && pos <= |S| && unencoded <= floor <= inputPosition < |input|
      modifies this`maxback, this`maxfwd, this`back, this`fwd, this`state, this`srcpos, this`lastSrcpos
      ensures Valid() && back == 0 && fwd == 0 && lastSrcpos == pos
      ensures ok ==> state == Backward && srcpos == pos && MatchOk() && LimitsAre(pos, floor, maxback, maxfwd)
      ensures !ok ==> state == Searching && srcpos == old(srcpos) && maxback == 0 && maxfwd == 0
      ensures !ok <==>
        (pos != 0 && pos == old(lastSrcpos)) || (pos < cksumPos && cksumPos - pos > maxWinsize)
        || (decided && (pos < srcbase || pos > srcbase + srclen))
    {
      hide SourceOk, FoundOk, LimitsAre, MatchOk;
      var b, f := 0, 0;
      ok := !(pos != 0 && pos == lastSrcpos) && !(pos < cksumPos && cksumPos - pos > maxWinsize);
      if ok {
        ok, b, f := Limits(pos, floor);
      }
      Begin(b, f, pos, ok);
      if ok {
        InReach(pos, floor);
      }
    }

    method Begin(b: nat, f: nat, pos: nat, ok: bool)
      modifies this`maxback, this`maxfwd, this`back, this`fwd, this`state, this`srcpos, this`lastSrcpos
      ensures maxback == b && maxfwd == f && back == 0 && fwd == 0 && lastSrcpos == pos
      ensures state == (if ok then Backward else Searching) && srcpos == if ok then pos else old(srcpos)
    {
      maxback, maxfwd, back, fwd, lastSrcpos := b, f, 0, 0, pos;
      state, srcpos := if ok then Backward else Searching, if ok then pos else srcpos;
    }

    /** A match that starts within its limits. */
    lemma InReach(pos: nat, floor: nat)
      requires Valid() && pos <= |S| && unencoded <= floor <= inputPosition <= |input| && LimitsAre(pos, floor, maxback, maxfwd)
      requires srcpos == pos && back == 0 && fwd == 0
      ensures MatchOk()
    {
      hide FoundOk, Same;
      NoBytes(input, inputPosition, S, pos);
      EofIs();
    }

    /** As far as input, source and source window reach. */
    ghost predicate LimitsAre(pos: nat, floor: nat, back: nat, fwd: nat)
      requires floor <= inputPosition <= |input|
      reads this`inputPosition, this`decided, this`srcbase, this`srclen
      reads this`eofKnown, this`maxBlkno, this`onLastBlk
    {
      var b, f := inputPosition - floor, |input| - inputPosition;
      if decided then
        srcbase <= pos <= srcbase + srclen && back == Min(b, pos - srcbase) && fwd == Min(f, srcbase + srclen - pos)
      else
        back == Min(b, pos) && fwd == if eofKnown then Min(f, Eof() - pos) else f
    }

    /** The limits of a match. */
    method Limits(pos: nat, floor: nat) returns (ok: bool, back: nat, fwd: nat)
      requires Valid() && pos <= |S| && unencoded <= floor <= inputPosition < |input|
      ensures !ok <==> decided && (pos < srcbase || pos > srcbase + srclen)
      ensures if ok then LimitsAre(pos, floor, back, fwd) else back == 0 == fwd
    {
      hide FoundOk, SourceOk;
      EofIs();
      back, fwd := inputPosition - floor, |input| - inputPosition;
      if !decided {
        if pos < back {
          back := pos;
        }
        if eofKnown {
          var srcavail := Eof() - pos;
          if srcavail < fwd {
            fwd := srcavail;
          }
        }
        return true, back, fwd;
      }
      if pos < srcbase || pos > srcbase + srclen {
        return false, 0, 0;
      }
      var srcavail := pos - srcbase;
      if srcavail < back {
        back := srcavail;
      }
      srcavail := srcbase + srclen - pos;
      if srcavail < fwd {
        fwd := srcavail;
      }
      ok := true;
    }

    lemma FoundList()
      requires FoundOk()
      ensures ListOk(found) && From(found, unencoded) && Progress(found, 0)
      ensures minaddr <= maxaddr <= |S| && AllSound(S, input, found, minaddr, maxaddr)
      ensures (0 < maxaddr ==> minaddr < maxaddr) && (srclen == 0 ==> srcbase == 0) && srclen <= Max(|S|, |input| + |input| / 4)
      ensures srcbase <= |S|
    {
    }

    lemma Undecided()
      requires FoundOk() && !decided
      ensures srcbase == 0 && srclen == 0
    {
    }

    lemma EofIs()
      requires SourceOk()
      ensures 0 < blksize < USIZE_LIMIT && (eofKnown ==> |S| <= Eof() <= Max(|S|, blksize))
    {
    }

    /** How a match ends: where a limit is reached, or the bytes differ, or a
        block cannot be had. */
    ghost predicate BackEndsAt(pos: nat, b: nat, max: nat)
      reads this`inputPosition
    {
      b == max || (b < inputPosition <= |input| && b < pos <= |S| && input[inputPosition - b - 1] != S[pos - b - 1])
    }

    ghost predicate FwdEndsAt(pos: nat, f: nat, max: nat)
      reads this`inputPosition
    {
      f == max || pos + f == |S| || (inputPosition + f < |input| && pos + f < |S| && input[inputPosition + f] != S[pos + f])
    }

    /** The backward half of `xd3_source_extend_match`. XD3_TOOFARBACK ends it. */
    method ExtendBack() returns (ret: Ret)
      requires Valid() && MatchOk()
      modifies this`curblkno, this`curblk, this`loaded, this`maxBlkno, this`onLastBlk, this`eofKnown, this`back
      ensures Valid() && MatchOk() && ret in {Zero, GetSrcBlk, TooFarBack} && (prompt ==> ret == Zero) && back >= old(back)
      ensures ret == Zero ==> BackEndsAt(srcpos, back, maxback)
    {
      hide FoundOk, SourceOk, Same, SourceFiles.Block, BlockStart;
      EofIs();
      DivIs(srcpos - back, blksize);
      var at := SourceFiles.BlksizeDiv(srcpos - back, blksize);
      var tryblk: nat, tryoff: nat, more := at.0, at.1, true;
      while more && back < maxback
        invariant Valid() && MatchOk() && back >= old(back)
        invariant more ==> tryoff <= blksize && BlockStart(blksize, tryblk) + tryoff == srcpos - back
        invariant !more ==> BackEndsAt(srcpos, back, maxback)
        decreases maxback - back, if more then 1 else 0
      {
        if tryoff == 0 {
          StepBack(tryblk, blksize, srcpos - back);
          tryoff, tryblk := blksize, tryblk - 1;
        }
        ret, more, tryoff := TryBlockBack(tryblk, tryoff);
        if ret != Zero {
          return ret;
        }
      }
      ret := Zero;
    }

    /** What one block matches before `tryoff`; `more` if all of it. */
    method TryBlockBack(tryblk: nat, tryoff0: nat) returns (ret: Ret, more: bool, tryoff: nat)
      requires Valid() && MatchOk() && back < maxback && 0 < tryoff0 <= blksize
      requires BlockStart(blksize, tryblk) + tryoff0 == srcpos - back
      modifies this`curblkno, this`curblk, this`loaded, this`maxBlkno, this`onLastBlk, this`eofKnown, this`back
      ensures Valid() && MatchOk() && ret in {Zero, GetSrcBlk, TooFarBack} && (prompt ==> ret == Zero) && back >= old(back)
      ensures ret == Zero && !more ==> BackEndsAt(srcpos, back, maxback)
      ensures ret == Zero && more ==>
        back > old(back) && tryoff <= blksize && BlockStart(blksize, tryblk) + tryoff == srcpos - back
    {
      hide FoundOk, SourceOk, Same, SourceFiles.Block, BlockStart;
      more, tryoff := false, tryoff0;
      ret := GetBlk(tryblk);
      if ret != Zero {
        return;
      }
      EofIs();
      BlockByte(S, blksize, tryblk, tryoff);
      var differ;
      differ, tryoff := ScanBack(tryoff, Min(tryoff, maxback - back), BlockStart(blksize, tryblk));
      more := !differ;
    }

    /** The inner loop, within a block that starts at `lo`. */
    method ScanBack(tryoff0: nat, tryrem0: nat, ghost lo: nat) returns (differ: bool, tryoff: nat)
      requires MatchOk() && tryrem0 <= tryoff0 <= |curblk| && tryrem0 <= maxback - back
      requires lo + tryoff0 == srcpos - back && forall k | 0 <= k < tryoff0 :: curblk[k] == S[lo + k]
      modifies this`back
      ensures MatchOk() && back >= old(back) && tryoff <= tryoff0 && lo + tryoff == srcpos - back
      ensures differ ==> BackEndsAt(srcpos, back, maxback)
      ensures !differ ==> back == old(back) + tryrem0
    {
      hide Same;
      var streamoff := inputPosition - back;
      var tryrem := tryrem0;
      tryoff := tryoff0;
      while tryrem != 0
        invariant 0 <= tryrem <= tryrem0 && tryoff == tryoff0 - (tryrem0 - tryrem) && back == old(back) + (tryrem0 - tryrem)
        invariant MatchOk() && streamoff == inputPosition - back
      {
        if curblk[tryoff - 1] != input[streamoff - 1] {
          return true, tryoff;
        }
        SameBack(input, inputPosition - back, S, srcpos - back, back);
        tryoff, streamoff := tryoff - 1, streamoff - 1;
        tryrem, back := tryrem - 1, back + 1;
      }
      differ := false;
    }

    /** The forward half. */
    method ExtendForward() returns (ret: Ret)
      requires Valid() && MatchOk()
      modifies this`curblkno, this`curblk, this`loaded, this`maxBlkno, this`onLastBlk, this`eofKnown, this`fwd
      ensures Valid() && MatchOk() && ret in {Zero, GetSrcBlk, TooFarBack} && (prompt ==> ret == Zero) && fwd >= old(fwd)
      ensures ret == Zero ==> FwdEndsAt(srcpos, fwd, maxfwd)
    {
      hide FoundOk, SourceOk, Same, SourceFiles.Block, BlockStart;
      EofIs();
      DivIs(srcpos + fwd, blksize);
      var at := SourceFiles.BlksizeDiv(srcpos + fwd, blksize);
      var tryblk: nat, tryoff: nat, more := at.0, at.1, true;
      while more && fwd < maxfwd
        invariant Valid() && MatchOk() && fwd >= old(fwd)
        invariant more ==> tryoff <= blksize && BlockStart(blksize, tryblk) + tryoff == srcpos + fwd
        invariant !more ==> FwdEndsAt(srcpos, fwd, maxfwd)
        decreases maxfwd - fwd, if more then 1 else 0
      {
        if tryoff == blksize {
          StepForward(tryblk, blksize);
          tryoff, tryblk := 0, tryblk + 1;
        }
        ret, more, tryoff := TryBlock(tryblk, tryoff);
        if ret != Zero {
          return ret;
        }
      }
      ret := Zero;
    }

    /** What one block matches, from `tryoff` on; `more` if all of it. */
    method TryBlock(tryblk: nat, tryoff0: nat) returns (ret: Ret, more: bool, tryoff: nat)
      requires Valid() && MatchOk() && fwd < maxfwd && tryoff0 < blksize && BlockStart(blksize, tryblk) + tryoff0 == srcpos + fwd
      modifies this`curblkno, this`curblk, this`loaded, this`maxBlkno, this`onLastBlk, this`eofKnown, this`fwd
      ensures Valid() && MatchOk() && ret in {Zero, GetSrcBlk, TooFarBack} && (prompt ==> ret == Zero) && fwd >= old(fwd)
      ensures ret == Zero && !more ==> FwdEndsAt(srcpos, fwd, maxfwd)
      ensures ret == Zero && more ==>
        fwd > old(fwd) && tryoff <= blksize && BlockStart(blksize, tryblk) + tryoff == srcpos + fwd
    {
      hide FoundOk, SourceOk, Same, SourceFiles.Block, BlockStart;
      more, tryoff := false, tryoff0;
      ret := GetBlk(tryblk);
      if ret != Zero {
        return;
      }
      EofIs();
      BlockBytes(S, blksize, tryblk, tryoff);
      var tryrem := Min(maxfwd - fwd, |curblk| - tryoff);
      if tryrem == 0 {
        return;
      }
      var matched := ScanForward(tryoff, tryrem, BlockStart(blksize, tryblk));
      tryoff := tryoff + matched;
      more := tryrem == matched;
    }

    /** Match within a block that starts at `lo`. */
    method ScanForward(tryoff: nat, tryrem: nat, ghost lo: nat) returns (matched: nat)
      requires MatchOk() && tryoff + tryrem <= |curblk| && tryrem <= maxfwd - fwd && lo + tryoff == srcpos + fwd
      requires lo + |curblk| <= |S| && forall k | 0 <= k < |curblk| :: curblk[k] == S[lo + k]
      modifies this`fwd
      ensures MatchOk() && matched <= tryrem && fwd == old(fwd) + matched && (matched != tryrem ==> FwdEndsAt(srcpos, fwd, maxfwd))
    {
      hide Same, SameAt;
      matched := ForwardMatch(curblk, tryoff, input, inputPosition + fwd, tryrem);
      SameForward(input, inputPosition, S, srcpos, fwd, curblk, tryoff, matched);
      fwd := fwd + matched;
    }

    /** A window length chosen before all matches are known, added up in 32 bits. */
    ghost function GuessedLength(): int
      reads this`minaddr, this`maxaddr, this`eofKnown, this`maxBlkno, this`onLastBlk
    {
      var guess := Max(maxaddr - minaddr, (|input| + |input| / 4) % USIZE_LIMIT);
      if eofKnown then Min(guess, Eof() - minaddr) else guess
    }

    /** `xd3_srcwin_setup`: announce a source window, exactly when all matches of
        the window are known, else by a guess; it has every match found. */
    method SrcwinSetup() returns (ret: Ret)
      requires Valid() && !decided
      modifies this`decided, this`srcbase, this`srclen, this`taroff
      ensures ret == Zero || ret == Internal
      ensures ret == Internal <==> !(encInstr && maxaddr == 0) && maxaddr - minaddr >= USIZE_LIMIT
      ensures ret == Zero ==> Valid() && decided && taroff == srclen
      ensures ret == Zero && encInstr && maxaddr == 0 ==> srcbase == 0 && srclen == 0
      ensures ret == Zero && encInstr && maxaddr != 0 ==> srcbase == minaddr && srclen == maxaddr - minaddr
      ensures ret == Zero && !encInstr ==> srcbase == minaddr && srclen == GuessedLength()
      ensures ret == Internal ==> srcbase == old(srcbase) && srclen == old(srclen)
    {
      hide SourceOk, FoundOk;
      EofIs();
      FoundList();
      Undecided();
      if encInstr && maxaddr == 0 {
        Decide(0, 0);
        return Zero;
      }
      var length := maxaddr - minaddr;
      if length >= USIZE_LIMIT {
        decided := true;
        return Internal;
      }
      if !encInstr {
        length := Max(length, (|input| + |input| / 4) % USIZE_LIMIT);
        if eofKnown {
          length := Min(length, Eof() - minaddr);
        }
      }
      Decide(minaddr, length);
      ret := Zero;
    }

    /** The source window, once and for all. */
    method Decide(base: nat, length: nat)
      requires Valid() && !decided && length <= Max(|S|, |input| + |input| / 4)
      requires (0 < maxaddr ==> base <= minaddr && maxaddr <= base + length) && (length == 0 ==> base == 0) && base <= |S|
      modifies this`decided, this`srcbase, this`srclen, this`taroff
      ensures Valid() && decided && srcbase == base && srclen == length == taroff
    {
      hide SourceOk, Sound, HasCopy, ListOk, From, Disjoint;
      AllSoundIn(S, input, gone, 0, 0, base, base + length);
      decided, srcbase, srclen, taroff := true, base, length, length;
    }

    /** `xd3_iopt_flush_instructions` without force. */
    method Flush() returns (ret: Ret)
      requires Valid()
      modifies this`decided, this`srcbase, this`srclen, this`taroff, this`found, this`gone, this`unencoded
      ensures ret == Zero || (ret == Internal && |S| >= USIZE_LIMIT)
      ensures ListOk(old(found))
      ensures ret == Zero ==>
        var c := Compact(old(found), 0, false); var n := Flushed(|c|, ioptSize, false);
        && 0 <= n <= |c| && found == c[n..] && gone == old(gone) + c[..n]
        && unencoded == (if n == 0 then old(unencoded) else End(c[n - 1]))
      ensures ret == Zero ==> SourceOk() && (From(found, unencoded) ==> FoundOk())
    {
      hide SourceOk, FoundOk, Compact, AllSound, From, GoneOk, HasCopy;
      FoundList();
      CompactSound(S, input, found, minaddr, maxaddr, unencoded);
      var c := CompactList(found, false);
      ret := Retire(c, Flushed(|c|, ioptSize, false));
    }

    /** The first `n` instructions are encoded. The source window must be decided
        before a copy is. */
    method Retire(c: seq<RInst>, n: nat) returns (ret: Ret)
      requires Valid() && n <= |c| && ListOk(c) && minaddr <= maxaddr && AllSound(S, input, c, minaddr, maxaddr)
      requires From(c, unencoded) && Disjoint(c, if c == [] then 0 else |c| - 1) && (n == |c| ==> n <= 1)
      modifies this`decided, this`srcbase, this`srclen, this`taroff, this`found, this`gone, this`unencoded
      ensures ret == Zero || (ret == Internal && |S| >= USIZE_LIMIT)
      ensures ret == Zero ==> found == c[n..] && gone == old(gone) + c[..n]
      ensures ret == Zero ==> unencoded == if n == 0 then old(unencoded) else End(c[n - 1])
      ensures ret == Zero ==> SourceOk() && (From(found, unencoded) ==> FoundOk())
    {
      hide SourceOk, AllSound, HasCopy, GoneOk, ListOk, From, Disjoint;
      Divide(S, input, c, n, minaddr, maxaddr, unencoded);
      if HasCopy(c[..n]) && !decided {
        ret := SrcwinSetup();
        if ret != Zero {
          return ret;
        }
      }
      if !decided { NoCopies(gone, c[..n]); }
      AllSoundIn(S, input, c[..n], minaddr, maxaddr, srcbase, srcbase + srclen);
      GoneMore(S, input, gone, unencoded, srcbase, srcbase + srclen, c, n);
      gone, found := gone + c[..n], c[n..];
      if n > 0 {
        unencoded := End(c[n - 1]);
      }
      ret := Zero;
    }

    /** `xd3_found_match` and `xd3_emit_run`: getting a slot can flush
        instructions. That goes wrong when just one or two are left by compaction
        and the one encoded overlaps what comes behind it. */
    method FoundMatch(r: RInst) returns (ret: Ret)
      requires Valid() && Sound(S, input, r, minaddr, maxaddr) && ListOk(found + [r]) && unencoded <= r.pos <= inputPosition
      modifies this`decided, this`srcbase, this`srclen, this`taroff, this`found, this`gone, this`unencoded, this`clash
      ensures ret in {Zero, Internal, Overlaps} && (ret == Internal ==> |S| >= USIZE_LIMIT)
      ensures ret == Overlaps ==> clash == (old(found), r) && Clash()
      ensures ret == Zero && 0 < ioptSize <= |old(found)| ==> !BadFlush(old(found), r)
      ensures Roomy() ==> ret == Zero && decided == old(decided)
      ensures ret == Zero ==> Valid() && Pushed(old(found), old(gone), r)
    {
      hide SourceOk, FoundOk, Compact, AllSound, ListOk, From, FlushFits, Disjoint;
      ghost var l := found;
      FoundList();
      CompactSound(S, input, l, minaddr, maxaddr, unencoded);
      RestFits(l, Compact(l, 0, false), ioptSize, r);
      FromMore(l, r, unencoded);
      var full := ioptSize != 0 && |found| >= ioptSize;
      InRoom(r);
      if full {
        ret := Flush();
        if ret != Zero {
          return;
        }
        FirstDecides(found, r, unencoded);
        if unencoded > r.pos || (found != [] && found[0].pos < unencoded) {
          clash := (l, r);
          return Overlaps;
        }
      }
      Push(r);
      ret := Zero;
    }

    /** Instructions begin at different positions. */
    lemma InRoom(r: RInst)
      requires minaddr <= maxaddr && Sound(S, input, r, minaddr, maxaddr) && ListOk(found + [r])
      ensures |found| < |input|
    {
      hide Same;
      PlacesApart(found + [r], |found|);
    }

    method Push(r: RInst)
      requires Valid() && Sound(S, input, r, minaddr, maxaddr) && ListOk(found + [r]) && From(found + [r], unencoded)
      modifies this`found
      ensures Valid() && found == old(found) + [r]
    {
      hide SourceOk, Sound, GoneOk, HasCopy, ListOk;
      found := found + [r];
    }

    /** The list after a push. */
    ghost predicate Pushed(l: seq<RInst>, g: seq<RInst>, r: RInst)
      reads this`found, this`gone
    {
      Grown(l, g, r, ioptSize, found, gone)
    }

    /** The range of addresses, and the end of all matches so far, with `[lo, hi)`. */
    ghost predicate Widened(min0: nat, max0: nat, src0: nat, lo: nat, hi: nat)
      reads this`minaddr, this`maxaddr, this`maxsrcaddr
    {
      minaddr == (if max0 == 0 || lo < min0 then lo else min0) && maxaddr == Max(max0, hi) && maxsrcaddr == Max(src0, hi)
    }

    /** Take a stretch of the source into the range of addresses. */
    method Widen(lo: nat, hi: nat)
      requires Valid() && lo < hi <= |S| && (decided ==> srcbase <= lo && hi <= srcbase + srclen)
      modifies this`minaddr, this`maxaddr, this`maxsrcaddr
      ensures Valid() && Widened(old(minaddr), old(maxaddr), old(maxsrcaddr), lo, hi)
    {
      hide SourceOk, ListOk, Sound, GoneOk, HasCopy;
      ghost var lo0, hi0 := minaddr, maxaddr;
      if maxaddr == 0 || lo < minaddr {
        minaddr := lo;
      }
      if hi > maxaddr {
        maxaddr := hi;
      }
      if hi > maxsrcaddr {
        maxsrcaddr := hi;
      }
      AllSoundIn(S, input, found, lo0, hi0, minaddr, maxaddr);
    }

    /** `xd3_iopt_erase`: drop what a longer match from `pos` on covers. */
    method Erase(pos: nat)
      requires Valid()
      modifies this`found
      ensures Valid() && found == Erased(old(found), pos)
    {
      hide SourceOk, Sound, GoneOk, HasCopy;
      while found != [] && found[|found| - 1].pos >= pos
        invariant Valid() && Erased(found, pos) == Erased(old(found), pos)
        decreases |found|
      {
        found := found[..|found| - 1];
      }
    }

    /** The end of `xd3_source_extend_match`: a match that is long enough becomes
        an instruction, in place of those it covers. */
    method TakeMatch() returns (ret: Ret)
      requires Valid() && MatchOk() && MinMatchOk()
      modifies this`state, this`fwd, this`back, this`srcpos, this`minaddr, this`maxaddr, this`maxsrcaddr
      modifies this`decided, this`srcbase, this`srclen, this`taroff, this`found, this`gone, this`unencoded, this`clash
      ensures ret in {Zero, Internal, Overlaps} && (ret == Internal ==> |S| >= USIZE_LIMIT)
      ensures Roomy() ==> ret == Zero && decided == old(decided)
      ensures ret == Zero ==> Valid()
      ensures ret == Zero && fwd == 0 ==> old(fwd) < minMatch && found == old(found) && gone == old(gone) && state == Searching
      ensures ret == Zero && fwd != 0 ==> fwd == old(fwd) >= minMatch
      ensures ret == Zero && fwd != 0 ==>
        Pushed(Erased(old(found), inputPosition - old(back)), old(gone), old(Match()))
        && Widened(old(minaddr), old(maxaddr), old(maxsrcaddr), old(srcpos) - old(back), old(srcpos) + fwd)
      ensures ret == Zero && fwd == 0 ==> minaddr == old(minaddr) && maxaddr == old(maxaddr) && maxsrcaddr == old(maxsrcaddr)
      ensures ret == Overlaps ==>
        old(fwd) >= minMatch && clash == (Erased(old(found), inputPosition - old(back)), old(Match())) && Clash()
      ensures ret == Zero ==>
        if fwd != 0 && inputPosition + fwd == |input| then state == TargetMatch && srcpos == old(srcpos) + fwd <= |S|
        else state == Searching && srcpos == old(srcpos)
    {
      hide SourceOk, FoundOk, Same, Erased, Valid, Pushed, BadFlush, Clash, Widened;
      state := Searching;
      if fwd < minMatch {
        fwd := 0;
        return Zero;
      }
      var targetPosition := inputPosition - back;
      var matchLength := back + fwd;
      var matchEnd := srcpos + fwd;
      ret := Record();
      if ret != Zero {
        return;
      }
      if targetPosition + matchLength == |input| {
        state, srcpos := TargetMatch, matchEnd;
      }
    }

    /** The match made so far. */
    ghost function Match(): RInst
      requires back <= inputPosition && back <= srcpos
      reads this`inputPosition, this`back, this`fwd, this`srcpos
    {
      RInst(CPY, 1, inputPosition - back, back + fwd, srcpos - back)
    }

    /** Record a match that is long enough. */
    method Record() returns (ret: Ret)
      requires Valid() && MatchOk() && MinMatchOk() && minMatch <= fwd
      modifies this`back, this`minaddr, this`maxaddr, this`maxsrcaddr, this`decided, this`srcbase, this`srclen, this`taroff
      modifies this`found, this`gone, this`unencoded, this`clash
      ensures ret in {Zero, Internal, Overlaps} && (ret == Internal ==> |S| >= USIZE_LIMIT)
      ensures Roomy() ==> ret == Zero && decided == old(decided)
      ensures ret == Zero ==> Valid()
      ensures ret == Zero ==> Pushed(Erased(old(found), inputPosition - old(back)), old(gone), old(Match()))
      ensures ret == Zero ==> Widened(old(minaddr), old(maxaddr), old(maxsrcaddr), srcpos - old(back), srcpos + fwd)
      ensures ret == Overlaps ==> clash == (Erased(old(found), inputPosition - old(back)), old(Match())) && Clash()
    {
      hide Valid, MatchOk, MinMatchOk, ListOk, SourceCopy, Erased, Sound, Pushed, BadFlush, Clash;
      MatchFits();
      ghost var r := Match();
      var targetPosition, matchLength, matchPosition := inputPosition - back, back + fwd, srcpos - back;
      var matchEnd := srcpos + fwd;
      if back > 0 {
        Erase(targetPosition);
      }
      back := 0;
      Widen(matchPosition, matchEnd);
      CopySound(S, input, r, minaddr, maxaddr);
      ret := FoundMatch(RInst(CPY, 1, targetPosition, matchLength, matchPosition));
    }

    /** The match made is a copy that can go to the end of the list. */
    lemma MatchFits()
      requires Valid() && MatchOk() && MinMatchOk() && minMatch <= fwd
      ensures back <= inputPosition && back <= srcpos && SourceCopy(S, input, Match())
      ensures ListOk(Erased(found, inputPosition - back) + [Match()]) && (back == 0 ==> Erased(found, inputPosition) == found)
      ensures unencoded <= inputPosition - back && 0 < fwd && srcpos + fwd <= |S|
      ensures decided ==> srcbase <= srcpos - back && srcpos + fwd <= srcbase + srclen
    {
      hide SourceOk, FoundOk, Same, ListOk, SourceCopy, Erased;
      FoundList();
      MatchIsCopy(S, input, inputPosition, srcpos, back, fwd);
      AppendMatch(found, Match(), inputPosition, minMatch, back);
    }

    /** `xd3_source_extend_match`. After XD3_GETSRCBLK it is entered again, with
        what was matched so far. */
    method ExtendMatch() returns (ret: Ret, ghost tooFar: bool, ghost b: nat, ghost f: nat)
      requires Valid() && MatchOk() && MinMatchOk() && (state == Backward || state == Forward)
      modifies this
      ensures (Roomy() && prompt ==> ret == Zero) && (Roomy() ==> decided == old(decided))
      ensures ret != TooFarBack && (Roomy() ==> ret == Zero || ret == GetSrcBlk)
      ensures inputPosition == old(inputPosition) && minMatch == old(minMatch) && cksumPos == old(cksumPos)
      ensures ret == GetSrcBlk ==> Valid() && MatchOk() && MinMatchOk() && (state == Backward || state == Forward)
      ensures ret == GetSrcBlk ==> found == old(found) && srcpos == old(srcpos) && back >= old(back) && fwd >= old(fwd)
      ensures ret == Zero ==> Valid() && b >= old(back) && f >= old(fwd) && b <= old(maxback) && (old(state) == Forward ==> b == old(back))
      ensures ret == Zero ==> Equal(S, input, inputPosition, old(srcpos), b, f) && f <= old(maxfwd)
      ensures ret == Zero && !tooFar && old(state) == Backward ==> BackEndsAt(old(srcpos), b, old(maxback))
      ensures ret == Zero && !tooFar ==> FwdEndsAt(old(srcpos), f, old(maxfwd))
      ensures prompt ==> !tooFar
      ensures ret == Zero && f < minMatch ==> fwd == 0 && found == old(found) && gone == old(gone)
      ensures ret == Zero && f < minMatch ==> minaddr == old(minaddr) && maxaddr == old(maxaddr) && maxsrcaddr == old(maxsrcaddr)
      ensures ret == Overlaps || ret == Zero ==> b <= inputPosition && b <= old(srcpos)
      ensures ret == Zero && f >= minMatch ==>
        fwd == f && Pushed(Erased(old(found), inputPosition - b), old(gone),
                           RInst(CPY, 1, inputPosition - b, b + f, old(srcpos) - b))
        && Widened(old(minaddr), old(maxaddr), old(maxsrcaddr), old(srcpos) - b, old(srcpos) + f)
      ensures ret == Overlaps ==>
        clash == (Erased(old(found), inputPosition - b), RInst(CPY, 1, inputPosition - b, b + f, old(srcpos) - b)) && Clash()
      ensures (ret == Internal ==> |S| >= USIZE_LIMIT) && (prompt ==> ret != GetSrcBlk)
      ensures ret == Zero ==>
        if fwd != 0 && inputPosition + fwd == |input| then state == TargetMatch && srcpos == old(srcpos) + fwd <= |S|
        else state == Searching && srcpos == old(srcpos)
    {
      hide Valid, MatchOk, MinMatchOk, Erased, Pushed, BadFlush, BackEndsAt, FwdEndsAt, Clash, Widened, Equal;
      ret, tooFar := ExtendBoth();
      b, f := back, fwd;
      MatchEqual();
      if ret == Zero {
        InLimits();
        ret := TakeMatch();
      }
    }

    /** Both directions; XD3_TOOFARBACK ends the direction, and backwards without a
        byte matched, the match. */
    method ExtendBoth() returns (ret: Ret, ghost tooFar: bool)
      requires Valid() && MatchOk() && (state == Backward || state == Forward)
      modifies this`curblkno, this`curblk, this`loaded, this`maxBlkno, this`onLastBlk, this`eofKnown
      modifies this`back, this`fwd, this`state
      ensures Valid() && MatchOk() && ret in {Zero, GetSrcBlk} && (prompt ==> ret == Zero) && (state == Backward || state == Forward)
      ensures back >= old(back) && fwd >= old(fwd) && (old(state) == Forward ==> back == old(back))
      ensures ret == Zero && !tooFar && old(state) == Backward ==> BackEndsAt(srcpos, back, maxback)
      ensures ret == Zero && !tooFar ==> FwdEndsAt(srcpos, fwd, maxfwd)
      ensures prompt ==> !tooFar
    {
      hide Valid, MatchOk, BackEndsAt, FwdEndsAt;
      tooFar, ret := false, Zero;
      if state == Backward {
        ret := ExtendBack();
        if ret == TooFarBack {
          tooFar := true;
          if back == 0 {
            return Zero, true;
          }
        } else if ret != Zero {
          return;
        }
        state := Forward;
      }
      ret := ExtendForward();
      if ret == TooFarBack {
        ret, tooFar := Zero, true;
      }
    }

    lemma MatchEqual()
      requires MatchOk()
      ensures Equal(S, input, inputPosition, srcpos, back, fwd) && fwd <= maxfwd
    {
    }

    /** The last instruction begins no later than here and ends `n` bytes on. */
    ghost predicate Reaches(n: nat)
      reads this`found, this`inputPosition
    {
      && found != [] && found[|found| - 1].pos <= inputPosition && End(found[|found| - 1]) == inputPosition + n
      && MIN_MATCH <= n && inputPosition + n <= |input|
    }

    /** What the search needs to know of an extended match. */
    method Extend() returns (ret: Ret, ghost tooFar: bool, ghost b: nat, ghost f: nat)
      requires Valid() && MatchOk() && MinMatchOk() && (state == Backward || state == Forward)
      modifies this
      ensures ret in {Zero, GetSrcBlk, Internal, Overlaps} && (Roomy() ==> ret == Zero || ret == GetSrcBlk)
      ensures (Roomy() && prompt ==> ret == Zero) && (Roomy() ==> decided == old(decided))
      ensures (ret == Internal ==> |S| >= USIZE_LIMIT) && (ret == Overlaps ==> Clash()) && (prompt ==> ret != GetSrcBlk)
      ensures inputPosition == old(inputPosition) && minMatch == old(minMatch)
      ensures ret == GetSrcBlk ==> Valid() && MatchOk() && MinMatchOk() && (state == Backward || state == Forward)
      ensures ret == GetSrcBlk ==> found == old(found)
      ensures ret == Zero ==> Valid() && fwd == (if f < minMatch then 0 else f) && if fwd == 0 then found == old(found) else Reaches(fwd)
      ensures ret == Zero ==> state == Searching || (state == TargetMatch && inputPosition + fwd == |input| && srcpos <= |S|)
      ensures cksumPos == old(cksumPos) && (prompt ==> !tooFar)
      ensures ret == Zero ==> Equal(S, input, inputPosition, old(srcpos), b, f) && f <= old(maxfwd) && (old(state) == Forward ==> b == old(back))
      ensures ret == Zero && !tooFar && old(state) == Backward ==> BackEndsAt(old(srcpos), b, old(maxback))
      ensures ret == Zero && !tooFar ==> FwdEndsAt(old(srcpos), f, old(maxfwd))
      ensures ret == Zero && f < minMatch ==> gone == old(gone)
      ensures ret == Zero && f >= minMatch ==>
        Pushed(Erased(old(found), inputPosition - b), old(gone), RInst(CPY, 1, inputPosition - b, b + f, old(srcpos) - b))
    {
      hide MatchOk, Erased, BadFlush, BackEndsAt, FwdEndsAt, FoundOk, SourceOk, Compact, Clash, Equal, Same, Widened, Pushed;
      ret, tooFar, b, f := ExtendMatch();
      if ret == Zero && f >= minMatch {
        LastPushed(Erased(old(found), inputPosition - b), old(gone), RInst(CPY, 1, inputPosition - b, b + f, old(srcpos) - b));
        LastInside();
      }
    }

    /** A run or a copy found at the current position, long enough. */
    method FoundHere(r: RInst) returns (ret: Ret)
      requires Valid() && MinMatchOk() && Sound(S, input, r, minaddr, maxaddr) && r.pos == inputPosition && minMatch <= r.size
      modifies this`decided, this`srcbase, this`srclen, this`taroff, this`found, this`gone, this`unencoded, this`clash
      ensures ret in {Zero, Internal, Overlaps} && (Roomy() ==> ret == Zero)
      ensures (ret == Internal ==> |S| >= USIZE_LIMIT) && (ret == Overlaps ==> Clash())
      ensures Roomy() ==> decided == old(decided)
      ensures ret == Zero ==> Valid() && Reaches(r.size) && Pushed(old(found), old(gone), r)
    {
      hide BadFlush, FoundOk, SourceOk, Compact, Erased, Sound, Clash;
      FoundList();
      AppendMatch(found, r, inputPosition, minMatch, 0);
      ret := FoundMatch(r);
      if ret == Zero {
        LastInside();
      }
    }

    lemma LastPushed(l: seq<RInst>, g: seq<RInst>, r: RInst)
      requires Pushed(l, g, r)
      ensures found != [] && found[|found| - 1] == r
    {
    }

    lemma LastInside()
      requires FoundOk() && found != []
      ensures End(found[|found| - 1]) <= |input|
    {
      hide Same;
      assert Sound(S, input, found[|found| - 1], minaddr, maxaddr);
    }

    lemma InLimits()
      requires MatchOk()
      ensures back <= maxback && back <= srcpos && back <= inputPosition
    {
    }

    /** The start of a window: try to go on where the last match ended. */
    method ContinueMatch(floor: nat)
      requires Valid() && !decided && state == TargetMatch && srcpos <= |S| && unencoded <= floor <= inputPosition < |input|
      modifies this`maxback, this`maxfwd, this`back, this`fwd, this`state, this`srcpos, this`lastSrcpos
      ensures Valid() && MatchOk() && state == Forward && srcpos == old(srcpos) == lastSrcpos && back == 0 && fwd == 0
      ensures if (srcpos != 0 && srcpos == old(lastSrcpos)) || (srcpos < cksumPos && cksumPos - srcpos > maxWinsize)
        then maxback == 0 && maxfwd == 0
        else LimitsAre(srcpos, floor, maxback, maxfwd)
    {
      hide FoundOk, SourceOk, Same;
      NoBytes(input, inputPosition, S, srcpos);
      var ok := MatchSetup(srcpos, floor);
      state := Forward;
    }

    /** The address of a source copy as it is encoded. */
    method EncodedAddress(r: RInst) returns (ret: Ret, addr: nat)
      requires Valid() && r in found && r.kind == CPY && r.xtra != 0
      modifies this`decided, this`srcbase, this`srclen, this`taroff
      ensures ret == Zero ==> Valid() && decided && addr + r.size <= srclen && srcbase + addr == r.addr
      ensures ret == Zero ==> Reproduces(Env(S, blksize, srcbase, srclen, |input|), input, r)
    {
      ret, addr := Zero, 0;
      if !decided {
        ret := SrcwinSetup();
        if ret != Zero {
          return ret, addr;
        }
      }
      FoundInWindow(r);
      addr := r.addr - srcbase;
    }

    /** What a forced flush leaves suits the encoder of the source window, whether
        that was announced early, late, or not at all for want of copies. */
    lemma Survivors(c: seq<RInst>)
      requires Valid() && ListOk(found) && c == Compact(found, 0, true) && (decided || !HasCopy(c))
      ensures var env := Env(S, blksize, srcbase, srclen, |input|);
        AllReproduce(env, input, c) && Disjoint(c, |c|) && AllReproduce(env, input, gone) && Disjoint(gone, |gone|)
      ensures From(gone, 0) && From(c, if gone == [] then 0 else End(gone[|gone| - 1]))
    {
      hide SourceOk, Compact, Sound, Reproduces, HasCopy;
      ForcedSound(S, input, found, minaddr, maxaddr, unencoded);
      AllSoundIn(S, input, c, minaddr, maxaddr, srcbase, srcbase + srclen);
      AnyBlksize(S, blksize, input, c, srcbase, srclen);
      AnyBlksize(S, blksize, input, gone, srcbase, srclen);
    }

    lemma FoundInWindow(r: RInst)
      requires Valid() && decided && r in found && r.kind == CPY && r.xtra != 0
      ensures Within(r, srcbase, srcbase + srclen)
      ensures Reproduces(Env(S, blksize, srcbase, srclen, |input|), input, r)
    {
      hide Same;
      assert Sound(S, input, r, minaddr, maxaddr);
    }
  }

  /** The source at `at` has the bytes of the input at `pos`, `b` back and `f` forward. */
  ghost predicate Equal(S: seq<byte>, input: seq<byte>, pos: nat, at: nat, b: nat, f: nat) {
    b <= pos && b <= at && Same(input, pos - b, S, at - b, b) && Same(input, pos, S, at, f)
  }

  /** The list with `r` at its end; if it was full, the first of what compaction leaves
      have been encoded before. */
  ghost predicate Grown(l: seq<RInst>, g: seq<RInst>, r: RInst, size: nat, found: seq<RInst>, gone: seq<RInst>) {
    ListOk(l) &&
    if size == 0 || |l| < size then found == l + [r] && gone == g
    else
      var c := Compact(l, 0, false);
      var n := Flushed(|c|, size, false);
      0 <= n <= |c| && found == c[n..] + [r] && gone == g + c[..n]
  }

  /** A partial flush after which the new instruction `r`, or one left in the buffer,
      begins before the end of what was encoded. */
  ghost predicate BadFlush(l: seq<RInst>, r: RInst) {
    ListOk(l) && !FlushFits(Compact(l, 0, false), r)
  }

  /** A flush for a new instruction, and what is then left before it. */
  lemma RestFits(l: seq<RInst>, c: seq<RInst>, size: nat, r: RInst)
    requires ListOk(l) && ListOk(l + [r]) && c == Compact(l, 0, false) && ListOk(c)
    requires Disjoint(c, if c == [] then 0 else |c| - 1)
    ensures var n := Flushed(|c|, size, false);
      && 0 <= n <= |c| && ListOk(c[n..] + [r]) && (n == 0 ==> l == [] && c == [] && FlushFits(c, r))
      && (n > 0 ==> (From(c[n..] + [r], End(c[n - 1])) <==> FlushFits(c, r)))
  {
    hide Compact, From;
    var n := Flushed(|c|, size, false);
    if l == [] {
      CompactUnfolds(l, 0, false);
      assert c[n..] + [r] == l + [r];
    } else {
      LastStays(l, 0);
      BeforeAll(l, c, r);
      FlushFitsIff(c, n, r);
    }
  }

  lemma {:induction false} PlacesApart(l: seq<RInst>, i: nat)
    requires ListOk(l) && i < |l|
    ensures i <= l[i].pos
  {
    if i > 0 {
      PlacesApart(l, i - 1);
      assert Before(l[i - 1], l[i]);
    }
  }

  lemma BeforeAll(l: seq<RInst>, c: seq<RInst>, r: RInst)
    requires ListOk(l + [r]) && ListOk(c) && l != [] && c != [] && c[|c| - 1] == l[|l| - 1]
    ensures ListOk(c + [r])
  {
    var m, t := l + [r], c + [r];
    assert Before(m[|l| - 1], m[|l|]) && m[|l|] == r;
    forall i, j | 0 <= i < j < |t| ensures Before(t[i], t[j]) {
      if j == |c| && i < |c| - 1 {
        assert Before(c[i], c[|c| - 1]);
      }
    }
    assert forall i | 0 <= i < |t| :: t[i].size >= MIN_MATCH;
  }

  /** In an ordered list the first instruction decides where it begins. */
  lemma FirstDecides(l: seq<RInst>, r: RInst, lo: nat)
    requires ListOk(l + [r])
    ensures From(l + [r], lo) <==> !(lo > r.pos || (l != [] && l[0].pos < lo))
    ensures From(l + [r], lo) ==> From(l, lo)
  {
    var m := l + [r];
    forall i | 0 < i < |m| ensures m[0].pos < m[i].pos {
      assert Before(m[0], m[i]);
    }
    assert m[|l|] == r && (l != [] ==> m[0] == l[0]) && forall i | 0 <= i < |l| :: l[i] == m[i];
  }

  lemma FromMore(l: seq<RInst>, r: RInst, lo: nat)
    requires From(l, lo) && lo <= r.pos
    ensures From(l + [r], lo)
  {
  }

  /** A compacted list in two parts. */
  lemma Divide(S: seq<byte>, input: seq<byte>, c: seq<RInst>, n: nat, lo: nat, hi: nat, from: nat)
    requires n <= |c| && ListOk(c) && lo <= hi && AllSound(S, input, c, lo, hi) && From(c, from)
    requires Disjoint(c, if c == [] then 0 else |c| - 1) && (n == |c| ==> n <= 1)
    ensures AllSound(S, input, c[..n], lo, hi) && AllSound(S, input, c[n..], lo, hi) && ListOk(c[n..])
    ensures From(c, from) && Disjoint(c, n)
  {
    hide Sound;
  }

  lemma NoCopies(a: seq<RInst>, b: seq<RInst>)
    requires !HasCopy(a) && !HasCopy(b)
    ensures !HasCopy(a + b)
  {
  }

  /** `xd3_iopt_erase`: drop what a longer match covers. */
  function Erased(l: seq<RInst>, pos: nat): seq<RInst> {
    if l != [] && l[|l| - 1].pos >= pos then Erased(l[..|l| - 1], pos) else l
  }

  lemma {:induction false} ErasedPart(l: seq<RInst>, pos: nat)
    ensures |Erased(l, pos)| <= |l| && Erased(l, pos) == l[..|Erased(l, pos)|]
    ensures Erased(l, pos) != [] ==> Erased(l, pos)[|Erased(l, pos)| - 1].pos < pos
    ensures l == [] || l[|l| - 1].pos < pos ==> Erased(l, pos) == l
  {
    if l != [] && l[|l| - 1].pos >= pos {
      ErasedPart(l[..|l| - 1], pos);
    }
  }

  /** The match found goes to the end of the list, in order. */
  lemma AppendMatch(l: seq<RInst>, r: RInst, position: nat, minMatch: nat, back: nat)
    requires ListOk(l) && back <= position && r.pos == position - back && position + minMatch <= End(r) && MIN_MATCH <= minMatch
    requires l != [] ==> l[|l| - 1].pos < position && End(l[|l| - 1]) < position + minMatch
    ensures ListOk(Erased(l, r.pos) + [r])
    ensures back == 0 ==> Erased(l, r.pos) == l
  {
    ErasedPart(l, r.pos);
    var k := Erased(l, r.pos);
    var n := |k|;
    var m := k + [r];
    assert k == l[..n];
    forall i, j | 0 <= i < j < |m| ensures Before(m[i], m[j]) {
      if j < n {
        assert Before(l[i], l[j]);
      } else {
        assert i < n - 1 ==> Before(l[i], l[n - 1]);
        assert n < |l| ==> Before(l[n - 1], l[|l| - 1]);
      }
    }
  }

  lemma MatchIsCopy(S: seq<byte>, input: seq<byte>, i: nat, j: nat, back: nat, fwd: nat)
    requires back <= i && back <= j && 0 < fwd && Same(input, i - back, S, j - back, back) && Same(input, i, S, j, fwd)
    ensures SourceCopy(S, input, RInst(CPY, 1, i - back, back + fwd, j - back))
  {
    var i', j' := i - back, j - back;
    forall k: nat | k < back + fwd ensures SameAt(input, i', S, j', k) {
      if k < back {
        assert SameAt(input, i', S, j', k);
      } else {
        assert SameAt(input, i, S, j, k - back);
      }
    }
  }

  lemma NoBytes(a: seq<byte>, i: nat, b: seq<byte>, j: nat)
    requires i <= |a| && j <= |b|
    ensures Same(a, i, b, j, 0)
  {
  }

  lemma DivIs(pos: nat, b: nat)
    requires 0 < b
    ensures var (n, o) := SourceFiles.BlksizeDiv(pos, b); BlockStart(b, n) + o == pos && o < b
  {
  }

  lemma StepForward(k: nat, b: nat)
    ensures BlockStart(b, k + 1) == BlockStart(b, k) + b
  {
  }

  lemma StepBack(k: nat, b: nat, pos: nat)
    requires BlockStart(b, k) == pos && 0 < pos
    ensures 0 < k && BlockStart(b, k - 1) + b == pos
  {
  }

  /** The bytes of block `n` before `off`. */
  lemma BlockByte(S: seq<byte>, b: nat, n: nat, off: nat)
    requires off <= b && BlockStart(b, n) + off <= |S|
    ensures var blk, lo := SourceFiles.Block(S, b, n), BlockStart(b, n);
      off <= |blk| && forall k | 0 <= k < off :: blk[k] == S[lo + k]
  {
  }

  lemma BlockBytes(S: seq<byte>, b: nat, n: nat, off: nat)
    requires off < b && BlockStart(b, n) + off <= |S|
    ensures var blk, lo := SourceFiles.Block(S, b, n), BlockStart(b, n);
      && off <= |blk| <= b && lo + |blk| <= |S| && (off == |blk| ==> lo + off == |S|)
      && forall k | 0 <= k < |blk| :: blk[k] == S[lo + k]
  {
  }

  lemma SameBack(a: seq<byte>, i: nat, b: seq<byte>, j: nat, n: nat)
    requires Same(a, i, b, j, n) && 0 < i && 0 < j && i <= |a| && j <= |b| && a[i - 1] == b[j - 1]
    ensures Same(a, i - 1, b, j - 1, n + 1)
  {
    var i', j' := i - 1, j - 1;
    forall k: nat | k < n + 1 ensures SameAt(a, i', b, j', k) {
      assert k > 0 ==> SameAt(a, i, b, j, k - 1);
    }
  }

  lemma SameForward(a: seq<byte>, i: nat, b: seq<byte>, j: nat, n: nat, c: seq<byte>, o: nat, m: nat)
    requires Same(a, i, b, j, n) && Same(c, o, a, i + n, m) && o <= j + n && j + n + m <= |b|
    requires forall k | 0 <= k < |c| :: j + n - o + k < |b| && c[k] == b[j + n - o + k]
    ensures Same(a, i, b, j, n + m)
  {
    forall k: nat | k < n + m ensures SameAt(a, i, b, j, k) {
      if k < n {
        assert SameAt(a, i, b, j, k);
      } else {
        assert SameAt(c, o, a, i + n, k - n);
        assert c[o + k - n] == b[j + n - o + (o + k - n)];
      }
    }
  }

  lemma BlockSize(S: seq<byte>, b: nat, n: nat)
    ensures n * b >= 0 && |SourceFiles.Block(S, b, n)| == Min(n * b + b, |S|) - Min(n * b, |S|)
  {
  }

  lemma {:induction false} LaterBlock(b: nat, n: nat, m: nat)
    requires n > m
    ensures n * b >= m * b + b
  {
    if n > m + 1 { LaterBlock(b, n - 1, m); }
    assert n * b == (n - 1) * b + b;
  }

  /** The next block read: a short one ends the source. */
  lemma NextBlock(S: seq<byte>, b: nat, n: nat, m: nat, last: nat, known: bool)
    requires 0 < b && EndOk(S, b, m, last, known) && BlockStart(b, n) <= Max(|S|, b)
    ensures var size := |SourceFiles.Block(S, b, n)|;
      && size <= b && EndOk(S, b, Max(m, n), if n >= m then size else last, known || (n > m && size != b))
      && (size < b && !(known || (n > m && size != b)) ==> n == 0)
  {
    hide SourceFiles.Block;
    BlockSize(S, b, n);
    BlockSize(S, b, m);
    if n > m {
      LaterBlock(b, n, m);
    } else if n < m {
      LaterBlock(b, m, n);
    }
    if n > 0 { LaterBlock(b, n, 0); }
  }
}
