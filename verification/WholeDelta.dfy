/** A whole delta: windows encoded one after the other, written to a file, read in
    chunks, and decoded. */
module WholeDelta {
  import opened Bytes
  import opened Options
  import opened DecodeStates
  import opened DecodeInput
  import opened Varint
  import opened DeltaFile
  import Window
  import opened Encoder
  import opened Iopt
  import opened Checksum
  import opened Secondary
  import opened GroupsCodec
  import opened WholeWindow
  import opened StringMatch
  import SourceMatch

  /** A section as the instructions see it. */
  ghost function Plain(sect: seq<byte>, packed: bool): Option<seq<byte>> {
    if !packed then Some(sect)
    else match Decompress(sect)
      case Data(b) => Some(b)
      case Unusable => None
  }

  /** Secondary decompression, instructions and checksum of a window. Nothing is
      said of a window that the decoder accepts but cannot address. */
  ghost function Rebuild(env: Window.Env, delInd: nat, inst: seq<byte>, data: seq<byte>, addr: seq<byte>,
                         cksum: Option<nat>): Option<seq<byte>> {
    var d, i, a := Plain(data, Bit0(delInd)), Plain(inst, Bit1(delInd)), Plain(addr, Bit2(delInd));
    if !env.Valid() || !env.Placed() || d == None || i == None || a == None then None
    else
      var w := Window.Decode(env, i.value, d.value, a.value);
      if w == None || (cksum.Some? && ChecksumOf(w.value) != cksum.value) then None else w
  }

  /** The window rebuilt by the decoder in state `s`, with the source file `S`. */
  ghost function WindowAt(S: seq<byte>, blksize: nat, s: Stream): Option<seq<byte>> {
    Rebuild(Window.Env(S, blksize, s.cpyOff, s.cpyLen, s.tgtLen), s.delInd, s.inst, s.data, s.addr,
            if Bit2(s.winInd) then Some(s.adler32) else None)
  }

  /** What was written stands for the window. */
  ghost predicate StandsFor(S: seq<byte>, blksize: nat, w: Parts, window: seq<byte>) {
    Rebuild(Window.Env(S, blksize, if w.srclen > 0 then w.srcbase else 0, w.srclen, w.tgtlen),
            w.delInd, w.inst, w.data, w.addr, w.cksum) == Some(window)
  }

  lemma CarriedIsRebuilt(S: seq<byte>, blksize: nat, s: Stream, w: Parts)
    requires Carries(s, w)
    ensures WindowAt(S, blksize, s)
      == Rebuild(Window.Env(S, blksize, if w.srclen > 0 then w.srcbase else 0, w.srclen, w.tgtlen),
                 w.delInd, w.inst, w.data, w.addr, w.cksum)
  {
  }

  /** The windows rebuilt, one after the other. */
  ghost function Target(S: seq<byte>, blksize: nat, emitted: seq<Stream>): seq<byte> {
    if emitted == [] then []
    else
      var w := WindowAt(S, blksize, emitted[0]);
      (if w.Some? then w.value else []) + Target(S, blksize, emitted[1..])
  }

  /** A delta file whose windows stand for the pieces of the target is decoded
      to the target, however the file is cut into chunks, or refused: exactly if
      sizes or positions in it do not fit. */
  lemma DeltaDecodes(S: seq<byte>, blksize: nat, sec: bool, app: Option<seq<byte>>, ws: seq<Parts>,
                     pieces: seq<seq<byte>>, chunks: seq<seq<byte>>)
    requires (app.Some? ==> |app.value| < USIZE_LIMIT) && forall i | 0 <= i < |ws| :: DeltaFile.Held(ws[i])
    requires chunks != [] && Flatten(chunks) == File(sec, app, ws)
    requires |ws| == |pieces| && forall i | 0 <= i < |ws| :: StandsFor(S, blksize, ws[i], pieces[i])
    ensures var r := DriveAll(s => WindowAt(S, blksize, s).Some?, INIT, chunks);
      if FileAccepted(sec, app, ws) then r.Waiting? && Target(S, blksize, Emitted(r.events)) == Flatten(pieces) else r.Ended?
  {
    hide DriveAll, Rebuild, Carries, WindowAt, FileAccepted, File, DeltaFile.Held;
    var emit := s => WindowAt(S, blksize, s).Some?;
    forall t, w | w in ws && Carries(t, w) ensures emit(t) {
      CarriedIsRebuilt(S, blksize, t, w);
      var i :| 0 <= i < |ws| && ws[i] == w;
      assert StandsFor(S, blksize, ws[i], pieces[i]);
    }
    FileReads(emit, sec, app, ws, chunks);
    if FileAccepted(sec, app, ws) {
      TargetIs(S, blksize, Emitted(DriveAll(emit, INIT, chunks).events), ws, pieces);
    }
  }

  lemma {:induction false} TargetIs(S: seq<byte>, blksize: nat, emitted: seq<Stream>, ws: seq<Parts>, pieces: seq<seq<byte>>)
    requires |emitted| == |ws| == |pieces|
    requires forall i | 0 <= i < |ws| :: Carries(emitted[i], ws[i])
    requires forall i | 0 <= i < |ws| :: StandsFor(S, blksize, ws[i], pieces[i])
    ensures Target(S, blksize, emitted) == Flatten(pieces)
  {
    hide Rebuild, Carries, WindowAt;
    if ws != [] {
      CarriedIsRebuilt(S, blksize, emitted[0], ws[0]);
      TargetIs(S, blksize, emitted[1..], ws[1..], pieces[1..]);
    }
  }

  /** How to compress a section, or not to. */
  datatype Compress = Leave | Pack(plan: Plan, inefficient: bool)

  ghost predicate CompressOk(how: Compress, sect: seq<byte>) {
    how.Pack? ==> PlanOk(how.plan, sect)
  }

  /** If the section is compressed, the groups of its codes are alike. */
  ghost predicate Restores(how: Compress, sect: seq<byte>)
    requires CompressOk(how, sect)
  {
    how.Pack? ==> Alike(how.plan, sect)
  }

  /** A section is compressed exactly if that is asked for and saves enough; `t` is
      what the compressor writes. */
  ghost predicate Packed(packed: bool, how: Compress, sect: seq<byte>, out: seq<byte>, t: Trace)
    requires CompressOk(how, sect)
  {
    if how.Leave? || |sect| < SECONDARY_MIN_INPUT then !packed && out == sect
    else
      && Planned(t, how.plan, sect) && (packed <==> Replaced(t, how.plan, sect, how.inefficient))
      && if packed then |out| == SizeOf(|sect|) + HuffSize(t, sect) else out == sect
  }

  /** A section, perhaps compressed. */
  method EmitSection(sect: seq<byte>, how: Compress) returns (packed: bool, out: seq<byte>, ghost t: Trace)
    requires |sect| < USIZE_LIMIT && CompressOk(how, sect)
    ensures Packed(packed, how, sect, out, t)
    ensures (packed ==> how.Pack?) && (!packed ==> out == sect)
    ensures packed ==> |sect| >= SECONDARY_MIN_INPUT && (how.inefficient || |out| < |sect| - SECONDARY_MIN_SAVINGS)
    ensures how.Pack? && how.inefficient && |sect| >= SECONDARY_MIN_INPUT ==> packed
    ensures Restores(how, sect) ==> Plain(out, packed) == Some(sect)
  {
    hide Decompress, Alike, PlanOk, Planned, HuffSize, TraceOk, SaveLittle;
    packed, out, t := false, sect, One([], []);
    if how.Pack? {
      packed, out, t := EncodeSecondary(sect, how.inefficient, how.plan);
    }
  }

  /** How to compress each of the sections. */
  datatype Choices = Choices(data: Compress, inst: Compress, addr: Compress)

  ghost predicate SectionsOk(which: Choices, e: WindowEncoder)
    reads e
  {
    && |e.data| < USIZE_LIMIT && |e.inst| < USIZE_LIMIT && |e.addr| < USIZE_LIMIT
    && CompressOk(which.data, e.data) && CompressOk(which.inst, e.inst) && CompressOk(which.addr, e.addr)
  }

  ghost predicate AllRestore(which: Choices, e: WindowEncoder)
    reads e
    requires SectionsOk(which, e)
  {
    Restores(which.data, e.data) && Restores(which.inst, e.inst) && Restores(which.addr, e.addr)
  }

  /** The header fields of a window that has been encoded. */
  ghost predicate HeaderIs(w: Parts, env: Window.Env, window: seq<byte>, adler: bool) {
    && w.srclen == env.cpylen && w.srcbase == env.cpyoff && w.tgtlen == env.tgtlen && w.delInd < 8
    && w.cksum == if adler then Some(ChecksumOf(window)) else None
  }

  /** What `xd3_emit_hdr` does with the sections before it writes the header, whether
      the decoder is going to accept the window or not. It stands for the input if it
      can be decoded and the groups of codes are alike. */
  method EmitWindow(e: WindowEncoder, which: Choices, adler: bool) returns (w: Parts, ghost td: Trace, ghost ti: Trace, ghost ta: Trace)
    requires SectionsOk(which, e)
    requires e.env.cpylen < USIZE_LIMIT && e.env.cpyoff < XOFF_LIMIT && e.env.tgtlen < USIZE_LIMIT
    ensures HeaderIs(w, e.env, e.input, adler)
    ensures Packed(Bit0(w.delInd), which.data, e.data, w.data, td) && Packed(Bit1(w.delInd), which.inst, e.inst, w.inst, ti)
    ensures Packed(Bit2(w.delInd), which.addr, e.addr, w.addr, ta)
    ensures (which.data.Leave? ==> w.data == e.data) && (which.inst.Leave? ==> w.inst == e.inst)
    ensures (which.addr.Leave? ==> w.addr == e.addr)
    ensures which.data.Leave? && which.inst.Leave? && which.addr.Leave? ==> w.delInd == 0
    ensures AllRestore(which, e) ==>
      Plain(w.data, Bit0(w.delInd)) == Some(e.data) && Plain(w.inst, Bit1(w.delInd)) == Some(e.inst)
      && Plain(w.addr, Bit2(w.delInd)) == Some(e.addr)
    ensures AllRestore(which, e) && (e.env.cpylen == 0 ==> e.env.cpyoff == 0) ==>
      (StandsFor(e.env.S, e.env.blksize, w, e.input) <==>
       e.env.Valid() && e.env.Placed() && Window.Decode(e.env, e.inst, e.data, e.addr) == Some(e.input))
  {
    hide Adler, Decompress, Window.Decode, PlanOk, Alike, Planned, HuffSize, TraceOk, SaveLittle, Replaced;
    var d, data, i, inst, a, addr;
    d, data, td := EmitSection(e.data, which.data);
    i, inst, ti := EmitSection(e.inst, which.inst);
    a, addr, ta := EmitSection(e.addr, which.addr);
    var delInd := DelInd(d, i, a);
    var cksum := None;
    if adler {
      var a32 := Adler32(1, e.input);
      cksum := Some(a32);
    }
    w := Parts(e.env.cpylen, e.env.cpyoff, e.env.tgtlen, delInd, data, inst, addr, cksum);
  }

  function DelInd(data: bool, inst: bool, addr: bool): (r: byte)
    ensures r < 8 && Bit0(r) == data && Bit1(r) == inst && Bit2(r) == addr
    ensures r == 0 <==> !data && !inst && !addr
  {
    (if data then 1 else 0) + (if inst then 2 else 0) + if addr then 4 else 0
  }

  // Windows one after the other, from matching to the file.

  /** A file, or a search that did not end, or sizes that do not fit. */
  datatype Outcome = Wrote(bytes: seq<byte>) | NotFound(ret: SourceMatch.Ret) | TooWide

  /** The instructions of a window: those found that are left, all that are encoded, and
      these with their address modes. */
  datatype Sending = Sending(l: seq<RInst>, log: seq<RInst>, coded: seq<RInst>)

  /** DATA and INST are what these instructions make of them. */
  ghost predicate Sent(w: Parts, window: seq<byte>, t: Sending) {
    AllOut(window, t.l, t.log, w.data) && Recoded(t.log, t.coded) && Opcodes(t.coded, w.inst)
  }

  /** What the encoder writes for a window that has been searched. `None` if its
      source window or its sections do not fit 32 bits. */
  method EmitFound(m: SourceMatch.Matcher, adler: bool) returns (w: Option<Parts>, ghost t: Sending)
    requires m.Valid() && |m.input| < USIZE_LIMIT && |m.S| < XOFF_LIMIT
    modifies m`encInstr, m`decided, m`srcbase, m`srclen, m`taroff
    ensures w.Some? ==> m.Valid() && DeltaFile.Held(w.value) && SectionsFit(w.value) && w.value.delInd == 0
    ensures w.Some? ==> WindowOf(w.value, m.S, m.blksize, adler, m.input) && w.value.srcbase == m.srcbase && w.value.srclen == m.srclen
    ensures w.Some? ==> Announced(m, old(m.decided), old(m.srcbase), old(m.srclen))
    ensures w.Some? ==> t.l == m.gone + Left(m) && Sent(w.value, m.input, t)
    ensures SmallEnough(m, old(m.decided)) && 12 * |m.input| < USIZE_LIMIT ==> w.Some?
  {
    hide SourceMatch.Matcher.FoundOk, SourceMatch.Matcher.SourceOk, Window.Decode, WindowEncoder.Valid, Rebuild, AllOut, Recoded, Opcodes,
      Left;
    m.FoundList();
    m.EofIs();
    if !m.decided { m.Undecided(); }
    ghost var base, len, decided := m.srcbase, m.srclen, m.decided;
    var e := EncodeFound(m);
    AnnouncedFits(m, base, len, decided);
    t := Sending([], [], []);
    if e == null || !e.env.Placed() || |e.inst| + |e.data| + |e.addr| >= USIZE_LIMIT {
      return None, t;
    }
    var parts;
    ghost var td, ti, ta;
    parts, td, ti, ta := EmitWindow(e, Choices(Leave, Leave, Leave), adler);
    w := Some(parts);
    t := Sending(m.gone + Left(m), e.log, e.coded);
  }

  /** The instructions sent are those that a search has found, after the last compaction. */
  ghost predicate FoundBy(x: Setting, c: Course, t: Sending) {
    x.Searched(c) && t.l == c.v.gone + Compacted(c.v.found)
  }

  /** A window is searched and written. */
  method SearchAndEmit(s: Searcher, adler: bool, tries: nat)
      returns (found: SourceMatch.Ret, w: Option<Parts>, ghost t: Sending, ghost c: Course)
    requires s.Resumable() && s.m.Fresh() && |s.m.input| < USIZE_LIMIT && |s.m.S| < XOFF_LIMIT
    modifies s, s.m
    ensures s.Failing(found) && (s.Sure() ==> found == SourceMatch.Zero)
    ensures found == SourceMatch.Zero && w.Some? ==> s.m.Valid() && s.Done()
    ensures w.Some? ==> WindowDone(s.Set(), s.m.blksize, adler, w.value, t, c)
    ensures s.Sure() && SmallEnough(s.m, false) && 12 * |s.m.input| < USIZE_LIMIT ==> w.Some?
  {
    hide SourceMatch.Matcher.FoundOk, SourceMatch.Matcher.SourceOk, Searcher.Resumable, Searcher.TablesOk, WindowOf,
      DeltaFile.Held, SectionsFit, Sent, Compacted, Setting.Searched, AtStart;
    StartIs(s);
    w, t := None, Sending([], [], []);
    found, c := SearchWindow(s, tries);
    if found == SourceMatch.Zero {
      w, t := EmitFound(s.m, adler);
    }
  }

  /** The header and the sections stand for the window, and the source window lies
      where 32 bits can address it. The checksum is there exactly if it is asked for. */
  ghost predicate WindowOf(w: Parts, S: seq<byte>, blksize: nat, adler: bool, window: seq<byte>) {
    && StandsFor(S, blksize, w, window) && w.tgtlen == |window| && w.srclen + w.tgtlen < USIZE_LIMIT && w.srcbase <= |S|
    && w.cksum == if adler then Some(ChecksumOf(window)) else None
  }

  /** The whole encoder: window after window is searched, encoded and written, with the
      tables and what is known of the source kept from one to the next. It writes a
      file whenever blocks are at hand, there is room for all instructions, and source
      and windows are small enough. */
  method EncodeFile(S: seq<byte>, blksize: nat, prompt: bool, maxWinsize: nat, ioptSize: nat, cfg: Config, smallSize: nat,
                    largeSize: nat, inputs: seq<seq<byte>>, adler: bool, tries: nat) 
      returns (r: Outcome, ghost ws: seq<Parts>, ghost ts: seq<Sending>, ghost cs: seq<Course>)
    requires 0 < blksize < USIZE_LIMIT && cfg.Valid() && 0 < smallSize && 0 < largeSize && |S| < XOFF_LIMIT
    requires inputs != [] && forall i | 0 <= i < |inputs| :: |inputs[i]| < USIZE_LIMIT
    ensures r.Wrote? ==> Written(S, blksize, adler, ws, inputs) && r.bytes == DeltaFile.File(false, None, ws)
    ensures r.Wrote? ==> |ts| == |cs| == |ws| && forall i | 0 <= i < |ws| ::
      WindowDone(Setting(S, inputs[i], ioptSize, maxWinsize, prompt, cfg), blksize, adler, ws[i], ts[i], cs[i])
    ensures (prompt || !cfg.doLarge) && (forall i | 0 <= i < |inputs| :: RoomFor(S, blksize, ioptSize, inputs[i])) ==> r.Wrote?
  {
    hide WindowDone, WindowOf, SourceMatch.Matcher.Valid, Searcher.Resumable, DeltaFile.Held, SectionsFit, RoomFor, Searcher.Done, File;
    ws, ts, cs := [], [], [];
    var parts: seq<Parts> := [];
    var m := new SourceMatch.Matcher(S, blksize, prompt, maxWinsize, ioptSize, inputs[0]);
    var s := new Searcher(m, cfg, smallSize, largeSize);
    for i := 0 to |inputs|
      invariant |parts| == |ts| == |cs| == i && forall j | 0 <= j < i ::
        WindowDone(Setting(S, inputs[j], ioptSize, maxWinsize, prompt, cfg), blksize, adler, parts[j], ts[j], cs[j])
      invariant s.m.S == S && s.m.blksize == blksize && s.m.prompt == prompt && s.m.ioptSize == ioptSize && s.cfg == cfg
      invariant s.m.maxWinsize == maxWinsize
      invariant fresh(s) && fresh(s.m)
      invariant if i == 0 then s.m.input == inputs[0] && s.Resumable() && s.m.Fresh() else s.m.Valid() && s.Done()
    {
      if i > 0 {
        var next := new SourceMatch.Matcher.Next(s.m, inputs[i]);
        s := new Searcher.Next(next, s);
      }
      RoomIs(s);
      SettingIs(s);
      var found, w;
      ghost var t, c;
      found, w, t, c := SearchAndEmit(s, adler, tries);
      if found != SourceMatch.Zero {
        return NotFound(found), ws, ts, cs;
      } else if w == None {
        return TooWide, ws, ts, cs;
      }
      parts := parts + [w.value];
      ts, cs := ts + [t], cs + [c];
    }
    ws := parts;
    AllDone(S, blksize, prompt, maxWinsize, ioptSize, cfg, adler, ws, inputs, ts, cs);
    var file := WriteFile(false, None, parts);
    r := Wrote(file);
  }

  /** Nothing of the window has been searched. */
  ghost predicate AtStart(v: View) {
    v.pos == 0 && v.found == [] && v.gone == []
  }

  /** A window searched from its start, encoded and written. */
  ghost predicate WindowDone(x: Setting, blksize: nat, adler: bool, w: Parts, t: Sending, c: Course) {
    && WindowOf(w, x.S, blksize, adler, x.input) && DeltaFile.Held(w) && SectionsFit(w) && w.delInd == 0
    && Sent(w, x.input, t) && FoundBy(x, c, t)
    && ((x.prompt || !x.cfg.doLarge) && (x.ioptSize == 0 || |x.input| <= x.ioptSize) ==> AtStart(c.v0))
  }

  lemma AllDone(S: seq<byte>, blksize: nat, prompt: bool, maxWinsize: nat, ioptSize: nat, cfg: Config, adler: bool,
                ws: seq<Parts>, inputs: seq<seq<byte>>, ts: seq<Sending>, cs: seq<Course>)
    requires |ws| == |inputs| == |ts| == |cs| && forall i | 0 <= i < |ws| ::
      WindowDone(Setting(S, inputs[i], ioptSize, maxWinsize, prompt, cfg), blksize, adler, ws[i], ts[i], cs[i])
    ensures Written(S, blksize, adler, ws, inputs) && forall i | 0 <= i < |ws| :: DeltaFile.Held(ws[i]) && SectionsFit(ws[i]) && ws[i].delInd == 0
  {
    hide WindowOf, DeltaFile.Held, SectionsFit, Sent, FoundBy;
  }

  lemma SettingIs(s: Searcher)
    ensures s.Set() == Setting(s.m.S, s.m.input, s.m.ioptSize, s.m.maxWinsize, s.m.prompt, s.cfg)
  {
  }

  lemma StartIs(s: Searcher)
    requires s.m.Fresh()
    ensures AtStart(s.Now())
    ensures s.Sure() <==> (s.m.prompt || !s.cfg.doLarge) && (s.m.ioptSize == 0 || |s.m.input| <= s.m.ioptSize)
  {
  }

  /** There is room for an instruction at every position of the window, and the source
      and the window together fit 32 bits, the sections for certain. */
  predicate RoomFor(S: seq<byte>, blksize: nat, ioptSize: nat, input: seq<byte>) {
    (ioptSize == 0 || |input| <= ioptSize) && |S| + |input| + blksize <= USIZE_LIMIT && 12 * |input| < USIZE_LIMIT
  }

  lemma RoomIs(s: Searcher)
    ensures RoomFor(s.m.S, s.m.blksize, s.m.ioptSize, s.m.input) && (s.m.prompt || !s.cfg.doLarge) ==>
      s.Sure() && SmallEnough(s.m, false) && 12 * |s.m.input| < USIZE_LIMIT
  {
  }

  /** What `EncodeFile` has written: headers that the encoder's fields hold, and
      sections that stand for the windows, none of them compressed. */
  ghost predicate Written(S: seq<byte>, blksize: nat, adler: bool, ws: seq<Parts>, inputs: seq<seq<byte>>) {
    |ws| == |inputs| && forall i | 0 <= i < |ws| ::
      WindowOf(ws[i], S, blksize, adler, inputs[i]) && DeltaFile.Held(ws[i]) && SectionsFit(ws[i]) && ws[i].delInd == 0
  }

  /** All that the decoder minds in such a file is a window that is too large, or a
      position that does not fit 64 bits. */
  lemma {:induction false} WrittenAccepted(S: seq<byte>, blksize: nat, adler: bool, ws: seq<Parts>, inputs: seq<seq<byte>>, start: nat)
    requires Written(S, blksize, adler, ws, inputs) && |S| + USIZE_LIMIT <= XOFF_LIMIT && start + |Flatten(inputs)| < XOFF_LIMIT
    ensures AllAccepted(start, false, ws) <==> forall i | 0 <= i < |inputs| :: |inputs[i]| <= XD3_HARDMAXWINSIZE
  {
    hide StandsFor, DeltaFile.Held, SectionsFit;
    if ws != [] {
      assert forall i | 0 <= i < |ws[1..]| :: ws[1..][i] == ws[i + 1] && inputs[1..][i] == inputs[i + 1];
      assert forall i | 0 < i < |inputs| :: inputs[i] == inputs[1..][i - 1];
      WrittenAccepted(S, blksize, adler, ws[1..], inputs[1..], start + |inputs[0]|);
    }
  }

  /** Such a file, cut into chunks anyhow, is decoded to the target exactly if no window
      is too large. */
  lemma WrittenDecodes(S: seq<byte>, blksize: nat, adler: bool, ws: seq<Parts>, inputs: seq<seq<byte>>, chunks: seq<seq<byte>>)
    requires Written(S, blksize, adler, ws, inputs) && |S| + USIZE_LIMIT <= XOFF_LIMIT && |Flatten(inputs)| < XOFF_LIMIT
    requires chunks != [] && Flatten(chunks) == DeltaFile.File(false, None, ws)
    ensures var r := DriveAll(s => WindowAt(S, blksize, s).Some?, INIT, chunks);
      if forall i | 0 <= i < |inputs| :: |inputs[i]| <= XD3_HARDMAXWINSIZE
      then r.Waiting? && Target(S, blksize, Emitted(r.events)) == Flatten(inputs) else r.Ended?
  {
    hide DriveAll, WindowAt, StandsFor, DeltaFile.Held, SectionsFit, DeltaFile.File, AllAccepted, Target, Flatten, Emitted;
    WrittenAccepted(S, blksize, adler, ws, inputs, 0);
    DeltaDecodes(S, blksize, false, None, ws, inputs, chunks);
  }
}
