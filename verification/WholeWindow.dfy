/** From matching to decoding: a window through the matcher, the encoder and the
    decoder, with its checksum. */
module WholeWindow {
  import opened Bytes
  import opened Options
  import opened Window
  import opened Iopt
  import opened Encoder
  import opened Checksum
  import opened SourceFiles
  import SourceBlocks
  import SourceMatch
  import WindowDecoder
  import opened StringMatch

  /** What the encoder announces and the decoder compares (section 2.2 of RFC
      1950, starting from 1). */
  function ChecksumOf(window: seq<byte>): nat {
    var p := Adler(1, 0, window);
    p.1 * 65536 + p.0
  }

  /** The end of `xd3_decode_emit`: a window with a wrong checksum is refused. */
  method CheckedEmit(d: WindowDecoder.Decoder, adler32: nat) returns (ret: WindowDecoder.Ret)
    requires d.Valid()
    modifies d.Repr
    ensures ret != WindowDecoder.Zero
    ensures ret == WindowDecoder.GetSrcBlk || ret == WindowDecoder.Internal ==>
      d.Valid() && (d.env.Placed() ==> d.Goal() == old(d.Goal()))
      && 0 < d.Left() <= old(d.Left()) && (old(d.Ready()) ==> d.Left() < old(d.Left()))
    ensures ret == WindowDecoder.GetSrcBlk ==> d.Asked()
    ensures ret == WindowDecoder.OutputReady ==>
      d.availOut == d.env.tgtlen <= d.nextOut.Length && ChecksumOf(d.nextOut[..d.availOut]) == adler32
    ensures ret == WindowDecoder.OutputReady && d.env.Placed() ==> old(d.Goal()) == Some(d.nextOut[..d.availOut])
    ensures ret == WindowDecoder.InvalidInput && d.env.Placed() ==>
      old(d.Goal()) == None || ChecksumOf(old(d.Goal()).value) != adler32
    ensures d.source.refused == old(d.source.refused) + if ret == WindowDecoder.Internal then 1 else 0
    ensures ret == WindowDecoder.GetSrcBlk ==> !d.source.client.Cached?
    ensures old(d.source.client) == NoCallback ==> ret != WindowDecoder.Internal && d.source.client == NoCallback
    ensures old(d.NearStart()) ==> ret == WindowDecoder.OutputReady || ret == WindowDecoder.InvalidInput
  {
    hide Adler, WindowDecoder.Decoder.Valid, WindowDecoder.Decoder.Goal, WindowDecoder.Decoder.Ready,
      WindowDecoder.Decoder.Asked, WindowDecoder.Decoder.NearStart, WindowDecoder.Decoder.Left;
    d.InBounds();
    ret := d.DecodeEmit();
    if ret == WindowDecoder.OutputReady {
      var a32 := Adler32(1, d.nextOut[..d.availOut]);
      if a32 != adler32 {
        ret := WindowDecoder.InvalidInput;
      }
    }
  }

  /** The application's loop over a window: each block asked for is supplied, until
      the window is there or refused, or the client fails. It ends after at most as
      many calls as there are bytes and halves to output. */
  method DecodeWindow(d: WindowDecoder.Decoder, a32: nat) returns (ret: WindowDecoder.Ret, out: seq<byte>, ghost calls: nat)
    requires d.Valid()
    modifies d.Repr
    ensures ret in {WindowDecoder.OutputReady, WindowDecoder.InvalidInput, WindowDecoder.Internal}
    ensures calls <= old(d.Left()) + 1
    ensures d.env.Placed() && old(d.Goal()).Some? && ChecksumOf(old(d.Goal()).value) == a32 ==>
      ret == WindowDecoder.Internal || (ret == WindowDecoder.OutputReady && out == old(d.Goal()).value)
    ensures d.env.Placed() && ret == WindowDecoder.OutputReady ==> old(d.Goal()) == Some(out) && ChecksumOf(out) == a32
    ensures ret == WindowDecoder.Internal <==> d.source.refused > old(d.source.refused)
    ensures old(d.source.client) == NoCallback || old(d.NearStart()) ==> ret != WindowDecoder.Internal
  {
    hide WindowDecoder.Decoder.Valid, WindowDecoder.Decoder.Goal, WindowDecoder.Decoder.Ready, WindowDecoder.Decoder.Asked,
      WindowDecoder.Decoder.NearStart, WindowDecoder.Decoder.Left, Adler;
    d.InBounds();
    ghost var left := d.Left();
    ret := CheckedEmit(d, a32);
    out, calls := [], 1;
    while ret == WindowDecoder.GetSrcBlk
      invariant ret != WindowDecoder.Zero && 0 < calls
      invariant ret == WindowDecoder.GetSrcBlk ==> d.Valid() && d.Asked() && 0 < d.Left() && calls + d.Left() <= left + 1
      invariant ret == WindowDecoder.GetSrcBlk && d.env.Placed() ==> d.Goal() == old(d.Goal())
      invariant calls <= left + 1
      invariant d.source.refused == old(d.source.refused) + if ret == WindowDecoder.Internal then 1 else 0
      invariant ret == WindowDecoder.OutputReady ==>
        d.availOut == d.env.tgtlen <= d.nextOut.Length && ChecksumOf(d.nextOut[..d.availOut]) == a32
      invariant ret == WindowDecoder.OutputReady && d.env.Placed() ==> old(d.Goal()) == Some(d.nextOut[..d.availOut])
      invariant ret == WindowDecoder.InvalidInput && d.env.Placed() ==>
        old(d.Goal()) == None || ChecksumOf(old(d.Goal()).value) != a32
      invariant old(d.source.client) == NoCallback ==> ret != WindowDecoder.Internal && d.source.client == NoCallback
      invariant old(d.NearStart()) ==> ret == WindowDecoder.OutputReady || ret == WindowDecoder.InvalidInput
      decreases if ret == WindowDecoder.GetSrcBlk then left + 2 - calls else 0
    {
      d.InBounds();
      d.SupplyBlock();
      ret := CheckedEmit(d, a32);
      calls := calls + 1;
    }
    if ret == WindowDecoder.OutputReady {
      out := d.nextOut[..d.availOut];
    }
  }

  /** The copy window and the block size suit the decoder: its addresses and its
      block offsets fit 32 bits, and the window is not too large to be buffered. */
  predicate Decodable(env: Env) {
    env.Valid() && env.Placed() && env.blksize + env.tgtlen <= USIZE_LIMIT
  }

  /** An encoded window, decoded with any client behind the source, comes back,
      checksum and all; it is never refused. The decoder fails only if the client
      refuses a block; one that cannot refuse, or has not evicted a block, does
      not. */
  method RoundTrip(e: WindowEncoder, client: Client) returns (ret: WindowDecoder.Ret, out: seq<byte>)
    requires Decodable(e.env) && Decode(e.env, e.inst, e.data, e.addr) == Some(e.input) && ClientOk(client)
    ensures ret == WindowDecoder.Internal || (ret == WindowDecoder.OutputReady && out == e.input)
    ensures client == NoCallback ==> ret != WindowDecoder.Internal
    ensures client.Cached? && client.nread <= SourceBlocks.MAX_SOURCE_BLOCKS && e.env.cpyoff + e.env.cpylen <= SourceBlocks.MAX_SOURCE_BLOCKS * e.env.blksize ==>
      ret != WindowDecoder.Internal
  {
    hide Decode, Adler, WindowDecoder.Decoder.Valid, WindowDecoder.Decoder.Goal;
    var a32 := Adler32(1, e.input);
    var source := new SourceFile(e.env.S, e.env.blksize, client);
    var d := new WindowDecoder.Decoder(e.env, source, e.inst, e.data, e.addr, e.env.tgtlen);
    ghost var calls;
    ret, out, calls := DecodeWindow(d, a32);
  }

  /** The end of a window in the encoder, ENC_INSTR: the source window is
      announced, if it was not before and a copy is left; the buffer is flushed; and
      the sections decode to the input. `None` if the source window cannot be
      announced, or its addresses do not fit 32 bits. */
  method EncodeFound(m: SourceMatch.Matcher) returns (e: WindowEncoder?)
    requires m.Valid()
    modifies m`encInstr, m`decided, m`srcbase, m`srclen, m`taroff
    ensures e == null <==> (Announces(old(m.decided), Left(m)) && m.maxaddr - m.minaddr >= USIZE_LIMIT) || m.srclen + |m.input| >= USIZE_LIMIT
    ensures e != null ==> m.Valid() && fresh(e) && (e.env.cpylen == 0 ==> e.env.cpyoff == 0) && e.env.cpyoff <= |m.S|
    ensures e != null ==> e.input == m.input && e.env == Env(m.S, m.blksize, m.srcbase, m.srclen, |m.input|)
    ensures e != null ==> |e.inst| + |e.data| + |e.addr| <= 12 * |m.input|
    ensures e != null ==> e.env.Valid() && Decode(e.env, e.inst, e.data, e.addr) == Some(m.input)
    ensures e != null ==> AllOut(m.input, m.gone + Left(m), e.log, e.data) && e.Complete()
    ensures Announced(m, old(m.decided), old(m.srcbase), old(m.srclen))
  {
    hide SourceMatch.Matcher.SourceOk, SourceMatch.Matcher.FoundOk, Compact, Decode, WindowEncoder.Valid, WindowEncoder.Slim,
      WindowEncoder.Logged, WindowEncoder.Complete, Disjoint, From, AllReproduce, SourceMatch.HasCopy, Filled, Gap, Whole, AllOut, Lits;
    m.FoundList();
    var c := CompactList(m.found, true);
    var ok := Announce(m, c);
    if !ok || m.srclen + |m.input| >= USIZE_LIMIT {
      return null;
    }
    m.EofIs();
    m.FoundList();
    m.Survivors(c);
    e := new WindowEncoder(Env(m.S, m.blksize, m.srcbase, m.srclen, |m.input|), m.input, m.ioptSize);
    SendOut(e, m.gone, c);
  }

  /** What was encoded early and what is left at the end go out. */
  method SendOut(e: WindowEncoder, a: seq<RInst>, b: seq<RInst>)
    requires e.Valid() && e.Slim() && e.Logged() && e.log == [] && e.unencoded == 0
    requires AllReproduce(e.env, e.input, a) && Disjoint(a, |a|) && AllReproduce(e.env, e.input, b) && Disjoint(b, |b|)
    requires From(a, 0) && From(b, if a == [] then 0 else End(a[|a| - 1]))
    modifies e.Repr
    ensures |e.inst| + |e.data| + |e.addr| <= 12 * |e.input|
    ensures Decode(e.env, e.inst, e.data, e.addr) == Some(e.input)
    ensures AllOut(e.input, a + b, e.log, e.data) && e.Complete()
  {
    hide Decode, WindowEncoder.Valid, WindowEncoder.Slim, WindowEncoder.Logged, WindowEncoder.Complete, Disjoint, From,
      AllReproduce, Filled, Gap, Whole, AllOut, Lits;
    e.EncodeList(a);
    e.EncodeList(b);
    e.AddFinalize();
    e.SlimIs();
    WholeJoined(e.env, e.input, a, b);
    assert e.log == Whole(a + b, |e.input|);
    WholeOut(e.env, e.input, a + b);
    e.CompleteIs();
  }

  /** What the last compaction leaves. */
  ghost function Left(m: SourceMatch.Matcher): seq<RInst>
    reads m`found
  {
    Compacted(m.found)
  }

  ghost function Compacted(l: seq<RInst>): seq<RInst> {
    if Progress(l, 0) then Compact(l, 0, true) else []
  }

  /** A copy is to be encoded, and no source window has been announced. */
  predicate Announces(decided: bool, c: seq<RInst>) {
    !decided && SourceMatch.HasCopy(c)
  }

  /** The source window announced at the end is the range of all addresses copied from;
      an earlier one stays. */
  ghost predicate Announced(m: SourceMatch.Matcher, decided: bool, base: nat, len: nat)
    reads m`found, m`minaddr, m`maxaddr, m`decided, m`srcbase, m`srclen
  {
    if Announces(decided, Left(m)) && m.maxaddr - m.minaddr < USIZE_LIMIT
    then m.decided && m.srcbase == m.minaddr && m.srclen == m.maxaddr - m.minaddr
    else m.srcbase == base && m.srclen == len
  }

  /** Announce the source window if a copy is to be encoded. */
  method Announce(m: SourceMatch.Matcher, c: seq<RInst>) returns (ok: bool)
    requires m.Valid()
    modifies m`encInstr, m`decided, m`srcbase, m`srclen, m`taroff
    ensures ok ==> m.Valid() && (m.decided || !SourceMatch.HasCopy(c))
    ensures ok <==> !(Announces(old(m.decided), c) && m.maxaddr - m.minaddr >= USIZE_LIMIT)
    ensures if Announces(old(m.decided), c) && ok
            then m.decided && m.srcbase == m.minaddr && m.srclen == m.maxaddr - m.minaddr
            else m.srcbase == old(m.srcbase) && m.srclen == old(m.srclen) && (ok ==> m.decided == old(m.decided))
  {
    hide SourceMatch.Matcher.SourceOk, SourceMatch.Matcher.FoundOk;
    m.FoundList();
    m.encInstr := true;
    if !m.decided && SourceMatch.HasCopy(c) {
      m.Undecided();
      var ret := m.SrcwinSetup();
      return ret == SourceMatch.Zero;
    }
    ok := true;
  }

  /** The copies found and the source window announced suit the decoder. */
  predicate Suits(m: SourceMatch.Matcher)
    reads m`minaddr, m`maxaddr, m`srcbase, m`srclen
  {
    && m.maxaddr - m.minaddr < USIZE_LIMIT && m.srclen + |m.input| < USIZE_LIMIT
    && Decodable(Env(m.S, m.blksize, m.srcbase, m.srclen, |m.input|))
  }

  /** Source and window are small enough for any source window that a search can
      announce: early, by a guess, or when all copies are known. */
  predicate SmallEnough(m: SourceMatch.Matcher, early: bool) {
    |m.S| + |m.input| + m.blksize + (if early then |m.input| + |m.input| / 4 else 0) <= USIZE_LIMIT
  }

  /** Whatever was found in the search, in whatever source window: encoded and
      decoded it is the input. The matcher is ready for the next window. */
  method MatchesRoundTrip(m: SourceMatch.Matcher) returns (ret: WindowDecoder.Ret, out: seq<byte>)
    requires m.Valid()
    modifies m`encInstr, m`decided, m`srcbase, m`srclen, m`taroff
    ensures ret == WindowDecoder.OutputReady ==> m.Valid() && out == m.input
    ensures Suits(m) ==> ret == WindowDecoder.OutputReady
    ensures SmallEnough(m, old(m.decided)) ==> ret == WindowDecoder.OutputReady
  {
    hide SourceMatch.Matcher.FoundOk, SourceMatch.Matcher.SourceOk, Decode, WindowEncoder.Valid;
    m.FoundList();
    m.EofIs();
    if !m.decided { m.Undecided(); }
    ghost var base, len, decided := m.srcbase, m.srclen, m.decided;
    var e := EncodeFound(m);
    AnnouncedFits(m, base, len, decided);
    if e == null || !Decodable(e.env) {
      return WindowDecoder.InvalidInput, [];
    }
    ret, out := RoundTrip(e, NoCallback);
  }

  lemma AnnouncedFits(m: SourceMatch.Matcher, base: nat, len: nat, decided: bool)
    requires 0 < m.blksize && m.minaddr <= m.maxaddr <= |m.S| && len <= Max(|m.S|, |m.input| + |m.input| / 4)
    requires !decided ==> base == 0 == len
    requires (m.srcbase == base && m.srclen == len) || (!decided && m.srcbase == m.minaddr && m.srclen == m.maxaddr - m.minaddr)
    ensures SmallEnough(m, decided) ==> Suits(m)
  {
  }

  /** A window, the first or a later one: the search, entered again after each block
      that the client supplies, up to `tries` times; what it finds, encoded and
      decoded, is the input. Whatever the input, the source and the hash tables, lazy
      or not, with any instruction buffer. */
  method SearchRoundTrip(s: Searcher, tries: nat) returns (found: SourceMatch.Ret, ret: WindowDecoder.Ret, out: seq<byte>)
    requires s.Resumable()
    modifies s, s.m
    ensures s.Failing(found) && (s.Sure() ==> found == SourceMatch.Zero)
    ensures ret == WindowDecoder.OutputReady ==> out == s.m.input && s.Done()
    ensures found == SourceMatch.Zero && Suits(s.m) ==> ret == WindowDecoder.OutputReady
    ensures found == SourceMatch.Zero && SmallEnough(s.m, true) ==> ret == WindowDecoder.OutputReady
    ensures s.Sure() && !old(s.m.decided) && SmallEnough(s.m, false) ==> ret == WindowDecoder.OutputReady
    ensures old(s.NoSource()) && !s.cfg.doLarge && s.Sure() ==> s.NoSource()
  {
    hide SourceMatch.Matcher.Valid, Searcher.Resumable, Searcher.TablesOk, Suits;
    ret, out := WindowDecoder.InvalidInput, [];
    ghost var c;
    found, c := SearchWindow(s, tries);
    if found == SourceMatch.Zero {
      s.DoneIs();
      ret, out := MatchesRoundTrip(s.m);
    }
  }

  method SearchWindow(s: Searcher, tries: nat) returns (found: SourceMatch.Ret, ghost c: Course)
    requires s.Resumable()
    modifies s, s.m
    ensures s.Failing(found) && (found == SourceMatch.Zero ==> s.Done())
    ensures s.Sure() ==> found == SourceMatch.Zero && s.m.decided == old(s.m.decided)
    ensures old(s.NoSource()) && !s.cfg.doLarge && s.Sure() ==> s.NoSource()
    ensures found == SourceMatch.Zero ==> c.v == s.Now() && s.Set().Searched(c)
    ensures s.Sure() ==> c.v0 == old(s.Now())
  {
    hide SourceMatch.Matcher.Valid, Searcher.Resumable, Searcher.TablesOk, Searcher.Now, Setting.Searched;
    found, c := s.Search();
    var left := tries;
    while found == SourceMatch.GetSrcBlk && left > 0
      invariant s.Failing(found) && (found == SourceMatch.GetSrcBlk ==> s.Resumable())
      invariant found == SourceMatch.Zero ==> s.Done()
      invariant s.Sure() ==> found == SourceMatch.Zero && s.m.decided == old(s.m.decided) && c.v0 == old(s.Now())
      invariant found == SourceMatch.Zero ==> c.v == s.Now() && s.Set().Searched(c)
      invariant old(s.NoSource()) && !s.cfg.doLarge && s.Sure() ==> s.NoSource()
    {
      found, c := s.Search();
      left := left - 1;
    }
  }
}
