/** A delta file as the encoder writes it, read by the decoder's state machine. */
module DeltaFile {
  import opened Bytes
  import opened Options
  import opened Varint
  import opened DecodeStates
  import opened DecodeInput

  /** What a window's header announces, its sections, and its checksum. `srclen`
      is zero when no source window is used; `delInd` says which sections have
      been compressed. */
  datatype Parts = Parts(srclen: nat, srcbase: nat, tgtlen: nat, delInd: byte, data: seq<byte>, inst: seq<byte>, addr: seq<byte>, cksum: Option<nat>)

  function Indicator(w: Parts): byte {
    (if w.srclen > 0 then 1 else 0) + if w.cksum.Some? then 4 else 0
  }

  /** The redundant length of the delta encoding, in 32 bits. */
  function EncodingLength(w: Parts): nat {
    (1 + SizeOf(w.tgtlen) + SizeOf(|w.data|) + SizeOf(|w.inst|) + SizeOf(|w.addr|)
     + |w.data| + |w.inst| + |w.addr| + if w.cksum.Some? then 4 else 0) % USIZE_LIMIT
  }

  function FourBytes(a: nat): (b: seq<byte>)
    ensures |b| == 4
  {
    [a / 0x100_0000 % 256, a / 0x1_0000 % 256, a / 0x100 % 256, a % 256]
  }

  function Checksum(w: Parts): (b: seq<byte>)
    ensures |b| == if w.cksum.Some? then 4 else 0
  {
    if w.cksum.Some? then FourBytes(w.cksum.value) else []
  }

  /** A window and what follows it (section 4 of RFC 3284). */
  function Sections(w: Parts, rest: seq<byte>): seq<byte> {
    w.data + (w.inst + (w.addr + rest))
  }

  function Lengths(w: Parts, rest: seq<byte>): seq<byte> {
    Emit(|w.data|) + (Emit(|w.inst|) + (Emit(|w.addr|) + (Checksum(w) + Sections(w, rest))))
  }

  function Encoding(w: Parts, rest: seq<byte>): seq<byte> {
    Emit(EncodingLength(w)) + (Emit(w.tgtlen) + ([w.delInd] + Lengths(w, rest)))
  }

  function Window(w: Parts, rest: seq<byte>): seq<byte> {
    [Indicator(w)] + if w.srclen > 0 then Emit(w.srclen) + (Emit(w.srcbase) + Encoding(w, rest)) else Encoding(w, rest)
  }

  /** What the decoder's header states accept: sizes and positions that fit, and a
      window that is not too large. */
  predicate HeaderFits(w: Parts) {
    && w.srclen + w.tgtlen < USIZE_LIMIT && w.tgtlen <= XD3_HARDMAXWINSIZE
    && (w.srclen > 0 ==> w.srcbase + w.srclen < XOFF_LIMIT)
  }

  predicate SectionsFit(w: Parts) {
    |w.data| + |w.inst| + |w.addr| < USIZE_LIMIT
  }

  /** What the decoder goes on to emit; compressed sections only if the file header
      named a compressor. */
  predicate Accepted(sec: bool, w: Parts) {
    HeaderFits(w) && w.delInd < 8 && (w.delInd != 0 ==> sec) && SectionsFit(w)
  }

  /** What the encoder's fields can hold; it checks nothing else. */
  predicate Held(w: Parts) {
    && w.srclen < USIZE_LIMIT && w.srcbase < XOFF_LIMIT && w.tgtlen < USIZE_LIMIT
    && |w.data| < USIZE_LIMIT && |w.inst| < USIZE_LIMIT && |w.addr| < USIZE_LIMIT
    && (w.cksum.Some? ==> w.cksum.value < USIZE_LIMIT)
  }

  /** The decoder between two windows. */
  predicate Between(s: Stream) {
    s.phase == WinInd && s.part32 == 0 == s.part64 && s.data == [] && s.inst == [] && s.addr == []
  }

  /** The header of `w` passes, here in the file. */
  predicate HeaderPasses(s: Stream, w: Parts) {
    s.winStart + s.tgtLen < XOFF_LIMIT && HeaderFits(w) && w.delInd < 8 && (w.delInd != 0 ==> s.secType)
  }

  lemma GoOn(s: Stream, input: seq<byte>, rest: seq<byte>)
    requires One(s, input).Moved? && One(s, input).rest == rest
    ensures Call(s, input) == Call(One(s, input).s, rest)
  {
  }

  lemma ByteStep(s: Stream, x: byte, rest: seq<byte>)
    requires Wants(s) == OneByte && Apply(s, x).Go?
    ensures Call(s, [x] + rest) == Call(Apply(s, x).s, rest)
  {
    hide Wants, Apply, Call;
    assert ([x] + rest)[1..] == rest;
    GoOn(s, [x] + rest, rest);
  }

  lemma StopHere(s: Stream, input: seq<byte>)
    requires One(s, input).Failed?
    ensures Call(s, input) == Error(One(s, input).code)
  {
  }

  lemma ByteFails(s: Stream, x: byte, rest: seq<byte>)
    requires Wants(s) == OneByte && Apply(s, x).Fail?
    ensures Call(s, [x] + rest) == Error(Apply(s, x).code)
  {
    hide Wants, Apply, Call;
    StopHere(s, [x] + rest);
  }

  lemma SizeFails(s: Stream, v: nat, rest: seq<byte>)
    requires Wants(s) == Size && s.part32 == 0 && v < USIZE_LIMIT && Apply(s, v).Fail?
    ensures Call(s, Emit(v) + rest) == Error(Apply(s, v).code)
  {
    hide Wants, Apply, Call, Emit, ReadFrom;
    RoundTrip(v, rest, OFLOW32);
    assert s.(part32 := 0) == s;
    StopHere(s, Emit(v) + rest);
  }

  lemma OffsetFails(s: Stream, v: nat, rest: seq<byte>)
    requires Wants(s) == Offset && s.part64 == 0 && v < XOFF_LIMIT && Apply(s, v).Fail?
    ensures Call(s, Emit(v) + rest) == Error(Apply(s, v).code)
  {
    hide Wants, Apply, Call, Emit, ReadFrom;
    RoundTrip(v, rest, OFLOW64);
    assert s.(part64 := 0) == s;
    StopHere(s, Emit(v) + rest);
  }

  lemma SkipFails(s: Stream, input: seq<byte>)
    requires Wants(s) == Skip && Apply(s, 0).Fail?
    ensures Call(s, input) == Error(Apply(s, 0).code)
  {
    hide Wants, Apply, Call;
    StopHere(s, input);
  }

  lemma SizeStep(s: Stream, v: nat, rest: seq<byte>)
    requires Wants(s) == Size && s.part32 == 0 && v < USIZE_LIMIT && Apply(s, v).Go?
    ensures Call(s, Emit(v) + rest) == Call(Apply(s, v).s, rest)
  {
    hide Wants, Apply, Call, Emit, ReadFrom;
    RoundTrip(v, rest, OFLOW32);
    assert s.(part32 := 0) == s;
    GoOn(s, Emit(v) + rest, rest);
  }

  lemma OffsetStep(s: Stream, v: nat, rest: seq<byte>)
    requires Wants(s) == Offset && s.part64 == 0 && v < XOFF_LIMIT && Apply(s, v).Go?
    ensures Call(s, Emit(v) + rest) == Call(Apply(s, v).s, rest)
  {
    hide Wants, Apply, Call, Emit, ReadFrom;
    RoundTrip(v, rest, OFLOW64);
    assert s.(part64 := 0) == s;
    GoOn(s, Emit(v) + rest, rest);
  }

  lemma SkipStep(s: Stream, input: seq<byte>)
    requires Wants(s) == Skip && Apply(s, 0).Go?
    ensures Call(s, input) == Call(Apply(s, 0).s, input)
  {
    hide Wants, Apply, Call;
    GoOn(s, input, input);
  }

  lemma BytesStep(s: Stream, b: seq<byte>, rest: seq<byte>)
    requires Wants(s) == Bytes(0, |b|) && Apply(Store(s, b), 0).Go?
    ensures Call(s, b + rest) == Call(Apply(Store(s, b), 0).s, rest)
  {
    hide Wants, Apply, Call, Store;
    assert (b + rest)[..|b|] == b && (b + rest)[|b|..] == rest;
    GoOn(s, b + rest, rest);
  }

  /** The state once the source window has been read. */
  function WithSource(s: Stream, w: Parts): Stream {
    var off := if w.srclen > 0 then w.srcbase else 0;
    s.(winInd := Indicator(w), currentWindow := s.windowCount, winStart := s.winStart + s.tgtLen, cksum := [],
       cpyLen := w.srclen, position := w.srclen, cpyOff := off, phase := EncLen)
  }

  lemma ReadSource(s: Stream, w: Parts, rest: seq<byte>)
    requires Between(s) && Held(w)
    ensures Call(s, Window(w, rest))
      == if s.winStart + s.tgtLen < XOFF_LIMIT && (w.srclen > 0 ==> w.srcbase + w.srclen < XOFF_LIMIT)
         then Call(WithSource(s, w), Encoding(w, rest)) else Error(InvalidInput)
  {
    hide Call, Encoding, Emit;
    var x := Indicator(w);
    var tail := if w.srclen > 0 then Emit(w.srclen) + (Emit(w.srcbase) + Encoding(w, rest)) else Encoding(w, rest);
    if s.winStart + s.tgtLen >= XOFF_LIMIT {
      ByteFails(s, x, tail);
    } else {
      ByteStep(s, x, tail);
      var s1 := Apply(s, x).s;
      if w.srclen > 0 {
        SizeStep(s1, w.srclen, Emit(w.srcbase) + Encoding(w, rest));
        var s2 := Apply(s1, w.srclen).s;
        if w.srcbase + w.srclen < XOFF_LIMIT {
          OffsetStep(s2, w.srcbase, Encoding(w, rest));
        } else {
          OffsetFails(s2, w.srcbase, Encoding(w, rest));
        }
      } else {
        SkipStep(s1, tail);
        SkipStep(Apply(s1, 0).s, tail);
      }
    }
  }

  /** The state once the target length has been read. */
  function WithTarget(s: Stream, w: Parts): Stream {
    s.(encLen := EncodingLength(w), tgtLen := w.tgtlen, maxPos := s.cpyLen + w.tgtlen, delInd := w.delInd, phase := DataLen)
  }

  lemma ReadTarget(s: Stream, w: Parts, rest: seq<byte>)
    requires s.phase == EncLen && s.part32 == 0 && Held(w)
    ensures Call(s, Encoding(w, rest)) == if TargetPasses(s, w) then Call(WithTarget(s, w), Lengths(w, rest)) else Error(InvalidInput)
  {
    hide Call, Emit, EncodingLength, Lengths, Apply, Wants;
    LengthFits(w);
    ApplyTarget(s, w);
    var s1 := s.(encLen := EncodingLength(w), phase := TgtLen);
    var s2 := s1.(tgtLen := w.tgtlen, maxPos := s.cpyLen + w.tgtlen, phase := DelInd);
    SizeStep(s, EncodingLength(w), Emit(w.tgtlen) + ([w.delInd] + Lengths(w, rest)));
    if s.cpyLen + w.tgtlen >= USIZE_LIMIT || w.tgtlen > XD3_HARDMAXWINSIZE {
      SizeFails(s1, w.tgtlen, [w.delInd] + Lengths(w, rest));
    } else {
      SizeStep(s1, w.tgtlen, [w.delInd] + Lengths(w, rest));
      if w.delInd < 8 && (w.delInd != 0 ==> s.secType) {
        ByteStep(s2, w.delInd, Lengths(w, rest));
      } else {
        ByteFails(s2, w.delInd, Lengths(w, rest));
      }
    }
  }

  /** The target length fits behind the copy window, and the sections can be read. */
  predicate TargetPasses(s: Stream, w: Parts) {
    && s.cpyLen + w.tgtlen < USIZE_LIMIT && w.tgtlen <= XD3_HARDMAXWINSIZE
    && w.delInd < 8 && (w.delInd != 0 ==> s.secType)
  }

  lemma ApplyTarget(s: Stream, w: Parts)
    requires s.phase == EncLen
    ensures var s1 := s.(encLen := EncodingLength(w), phase := TgtLen);
      var s2 := s1.(tgtLen := w.tgtlen, maxPos := s.cpyLen + w.tgtlen, phase := DelInd);
      && Wants(s) == Size && Apply(s, EncodingLength(w)) == Go(s1)
      && Wants(s1) == Size
      && Apply(s1, w.tgtlen)
         == (if s.cpyLen + w.tgtlen < USIZE_LIMIT && w.tgtlen <= XD3_HARDMAXWINSIZE then Go(s2) else Fail(InvalidInput))
      && Wants(s2) == OneByte
      && Apply(s2, w.delInd) == if w.delInd < 8 && (w.delInd != 0 ==> s.secType) then Go(WithTarget(s, w)) else Fail(InvalidInput)
  {
    hide EncodingLength;
  }

  /** The state once the lengths have been read. */
  function WithLengths(s: Stream, w: Parts): Stream {
    WithTarget(s, w).(dataSize := |w.data|, instSize := |w.inst|, addrSize := |w.addr|, phase := Cksum)
  }

  lemma ReadLengths(s: Stream, w: Parts, rest: seq<byte>)
    requires s.phase == EncLen && s.part32 == 0 && Held(w) && TargetPasses(s, w)
    ensures Call(s, Encoding(w, rest)) == Call(WithLengths(s, w), Checksum(w) + Sections(w, rest))
  {
    hide Call, Emit, Sections, Checksum, EncodingLength, Encoding;
    ReadTarget(s, w, rest);
    var tail := Checksum(w) + Sections(w, rest);
    var t := WithTarget(s, w);
    SizeStep(t, |w.data|, Emit(|w.inst|) + (Emit(|w.addr|) + tail));
    var t1 := Apply(t, |w.data|).s;
    SizeStep(t1, |w.inst|, Emit(|w.addr|) + tail);
    SizeStep(Apply(t1, |w.inst|).s, |w.addr|, tail);
  }

  lemma LengthFits(w: Parts)
    ensures EncodingLength(w) < USIZE_LIMIT
  {
  }

  lemma FourDigits(a: nat)
    requires a < USIZE_LIMIT
    ensures ((a / 0x100_0000 % 256 * 256 + a / 0x1_0000 % 256) * 256 + a / 0x100 % 256) * 256 + a % 256 == a
  {
    var b := a / 0x100;
    var c := b / 0x100;
    assert c == a / 0x1_0000 && c / 0x100 == a / 0x100_0000;
  }

  lemma WordOfFour(b: seq<byte>)
    requires |b| == 4
    ensures Word(b) == ((b[0] as int * 256 + b[1]) * 256 + b[2]) * 256 + b[3]
  {
    var c, d, e := b[..3], b[..2], b[..1];
    assert c[..2] == d && d[..1] == e && e[..0] == [];
    assert Word(e) == b[0];
    assert Word(d) == Word(e) * 256 + b[1];
    assert Word(c) == Word(d) * 256 + b[2];
  }

  lemma WordOfBytes(a: nat)
    requires a < USIZE_LIMIT
    ensures Word(FourBytes(a)) == a
  {
    hide Word;
    WordOfFour(FourBytes(a));
    FourDigits(a);
  }

  /** The state at the start of the sections. */
  function WithHeader(s: Stream, w: Parts): Stream {
    var t := WithLengths(WithSource(s, w), w);
    t.(cksum := Checksum(w), adler32 := if w.cksum.Some? then w.cksum.value else s.adler32, phase := DataSect)
  }

  /** The decoder reads back exactly what the header says if that passes, and
      otherwise refuses the window. The encoder writes any header that its fields can
      hold. */
  lemma ReadHeader(s: Stream, w: Parts, rest: seq<byte>)
    requires Between(s) && Held(w)
    ensures Call(s, Window(w, rest))
      == if HeaderPasses(s, w) then Result(if s.windowCount == 0 then GotHeader else WinStart, WithHeader(s, w), Sections(w, rest))
         else Error(InvalidInput)
  {
    hide Call, Sections, Encoding, Window;
    ReadSource(s, w, rest);
    if s.winStart + s.tgtLen < XOFF_LIMIT && (w.srclen > 0 ==> w.srcbase + w.srclen < XOFF_LIMIT) {
      var t := WithSource(s, w);
      assert TargetPasses(t, w) <==> HeaderPasses(s, w);
      if TargetPasses(t, w) {
        ReadLengths(t, w, rest);
        ReadChecksum(s, w, rest);
      } else {
        ReadTarget(t, w, rest);
      }
    }
  }

  lemma ReadChecksum(s: Stream, w: Parts, rest: seq<byte>)
    requires Between(s) && Held(w) && HeaderPasses(s, w)
    ensures Call(WithLengths(WithSource(s, w), w), Checksum(w) + Sections(w, rest))
      == Result(if s.windowCount == 0 then GotHeader else WinStart, WithHeader(s, w), Sections(w, rest))
  {
    hide One, WithLengths, WithHeader, WithSource, Checksum, Sections;
    OneChecksum(s, w, Sections(w, rest));
  }

  lemma OneChecksum(s: Stream, w: Parts, tail: seq<byte>)
    requires Between(s) && Held(w) && HeaderPasses(s, w)
    ensures One(WithLengths(WithSource(s, w), w), Checksum(w) + tail)
      == Returned(if s.windowCount == 0 then GotHeader else WinStart, WithHeader(s, w), tail)
  {
    hide Word, Apply, EncodingLength;
    var t := WithLengths(WithSource(s, w), w);
    var b := Checksum(w);
    assert (b + tail)[..|b|] == b && (b + tail)[|b|..] == tail && [] + b == b;
    ApplyChecksum(s, w);
    assert !Bit2(t.winInd) ==> t == t.(cksum := b) && b + tail == tail;
  }

  lemma ApplyChecksum(s: Stream, w: Parts)
    requires Held(w)
    ensures var t := WithLengths(WithSource(s, w), w);
      Apply(t.(cksum := Checksum(w)), 0)
        == Return(if s.windowCount == 0 then GotHeader else WinStart, WithHeader(s, w))
  {
    hide Word, FourBytes;
    var t := WithLengths(WithSource(s, w), w);
    assert EncLenCheck(t.(cksum := Checksum(w))) == EncodingLength(w);
    if w.cksum.Some? {
      WordOfBytes(w.cksum.value);
    }
  }

  /** The state with the sections read. */
  function Loaded(s: Stream, w: Parts): Stream {
    WithHeader(s, w).(data := w.data, inst := w.inst, addr := w.addr, phase := Emitting)
  }

  /** And the sections, if their sizes together fit. */
  lemma ReadSections(s: Stream, w: Parts, rest: seq<byte>)
    requires Between(s) && Held(w)
    ensures Call(WithHeader(s, w), Sections(w, rest)) == if SectionsFit(w) then Result(Ready, Loaded(s, w), rest) else Error(Internal)
  {
    hide Call, Checksum, EncodingLength, Apply, Wants, Store;
    var t := WithHeader(s, w);
    if !SectionsFit(w) {
      ApplyTooMuch(t, w);
      SkipFails(t, Sections(w, rest));
    } else {
      ApplySections(t, w);
      var t1 := t.(data := w.data, phase := InstSect);
      var t2 := t1.(inst := w.inst, phase := AddrSect);
      BytesStep(t, w.data, w.inst + (w.addr + rest));
      BytesStep(t1, w.inst, w.addr + rest);
      BytesStep(t2, w.addr, rest);
      AtEmit(Loaded(s, w), rest);
    }
  }

  lemma ApplyTooMuch(t: Stream, w: Parts)
    requires t.phase == DataSect && !SectionsFit(w)
    requires t.dataSize == |w.data| && t.instSize == |w.inst| && t.addrSize == |w.addr|
    ensures Wants(t) == Skip && Apply(t, 0) == Fail(Internal)
  {
  }

  /** One section after the other, each within its size. */
  lemma ApplySections(t: Stream, w: Parts)
    requires t.phase == DataSect && t.data == [] && t.inst == [] && t.addr == [] && SectionsFit(w)
    requires t.dataSize == |w.data| && t.instSize == |w.inst| && t.addrSize == |w.addr|
    ensures var t1 := t.(data := w.data, phase := InstSect);
      var t2 := t1.(inst := w.inst, phase := AddrSect);
      && Wants(t) == Bytes(0, |w.data|) && Apply(Store(t, w.data), 0) == Go(t1)
      && Wants(t1) == Bytes(0, |w.inst|) && Apply(Store(t1, w.inst), 0) == Go(t2)
      && Wants(t2) == Bytes(0, |w.addr|) && Apply(Store(t2, w.addr), 0) == Go(t2.(addr := w.addr, phase := Emitting))
  {
    assert [] + w.data == w.data && [] + w.inst == w.inst && [] + w.addr == w.addr;
  }

  lemma AtEmit(s: Stream, rest: seq<byte>)
    requires s.phase == Emitting
    ensures Call(s, rest) == Result(Ready, s, rest)
  {
  }

  /** The state after a window. */
  function After(s: Stream, w: Parts): Stream {
    Finished(Loaded(s, w)).(windowCount := s.windowCount + 1, phase := WinInd)
  }

  lemma AtFinish(s: Stream, rest: seq<byte>)
    requires s.phase == Finish
    ensures Call(s, rest) == Result(WinFinish, s.(windowCount := s.windowCount + 1, phase := WinInd), rest)
  {
  }

  function Events(s: Stream, w: Parts): seq<Event> {
    [Event(if s.windowCount == 0 then GotHeader else WinStart, WithHeader(s, w)),
     Event(Ready, Loaded(s, w)), Event(WinFinish, After(s, w))]
  }

  lemma PrependAll(a: Event, b: Event, c: Event, r: Run)
    ensures Prepend([a], Prepend([b], Prepend([c], r))) == Prepend([a, b, c], r)
  {
    assert [a] + ([b] + ([c] + r.events)) == [a, b, c] + r.events;
  }

  lemma AfterIsBetween(s: Stream, w: Parts)
    requires Between(s)
    ensures Between(After(s, w)) && After(s, w).winStart == s.winStart + s.tgtLen && After(s, w).tgtLen == w.tgtlen
    ensures After(s, w).windowCount == s.windowCount + 1 && After(s, w).secType == s.secType
  {
  }

  lemma AfterIs(s: Stream, w: Parts)
    ensures var f := Finished(Loaded(s, w));
      f.phase == Finish && After(s, w) == f.(windowCount := f.windowCount + 1, phase := WinInd)
  {
  }

  /** One window in the application's loop: three returns, or it ends with the
      decoder's refusal. */
  lemma DriveWindow(emit: Stream -> bool, s: Stream, w: Parts, rest: seq<byte>)
    requires Between(s) && Held(w) && emit(Loaded(s, w))
    ensures HeaderPasses(s, w) && SectionsFit(w) ==>
      Drive(emit, s, Window(w, rest)) == Prepend(Events(s, w), Drive(emit, After(s, w), rest))
    ensures !(HeaderPasses(s, w) && SectionsFit(w)) ==>
      Drive(emit, s, Window(w, rest)).Ended? && Emitted(Drive(emit, s, Window(w, rest)).events) == []
      && Drive(emit, s, Window(w, rest)).code == if HeaderPasses(s, w) then Internal else InvalidInput
  {
    hide Call, Window, Sections, WithHeader, Loaded, HeaderPasses, SectionsFit;
    ReadHeader(s, w, rest);
    DriveOn(emit, s, Window(w, rest));
    if HeaderPasses(s, w) {
      ReadSections(s, w, rest);
      DriveOn(emit, WithHeader(s, w), Sections(w, rest));
      if SectionsFit(w) {
        var f := Finished(Loaded(s, w));
        AfterIs(s, w);
        AtFinish(f, rest);
        DriveOn(emit, f, rest);
        var e := Events(s, w);
        PrependAll(e[0], e[1], e[2], Drive(emit, After(s, w), rest));
      }
    }
  }

  lemma DriveOn(emit: Stream -> bool, s: Stream, input: seq<byte>)
    ensures Drive(emit, s, input) ==
      match Call(s, input)
      case Error(c) => Ended([], c)
      case Result(c, s', rest) =>
        if c == Input then Waiting([], s')
        else if c == Ready then
          if emit(s') then Prepend([Event(c, s')], Drive(emit, Finished(s'), rest)) else Ended([Event(c, s')], InvalidInput)
        else Prepend([Event(c, s')], Drive(emit, s', rest))
  {
    hide Call;
  }

  function Windows(ws: seq<Parts>): seq<byte> {
    if ws == [] then [] else Window(ws[0], Windows(ws[1..]))
  }

  /** The states at which windows are emitted. */
  function Emitted(events: seq<Event>): seq<Stream> {
    if events == [] then []
    else (if events[0].code == Ready then [events[0].s] else []) + Emitted(events[1..])
  }

  lemma EmittedCons(e: Event, t: seq<Event>)
    ensures Emitted([e] + t) == (if e.code == Ready then [e.s] else []) + Emitted(t)
  {
    assert ([e] + t)[1..] == t;
  }

  lemma {:induction false} EmittedAppend(a: seq<Event>, b: seq<Event>)
    ensures Emitted(a + b) == Emitted(a) + Emitted(b)
  {
    hide Emitted;
    if a == [] {
      assert a + b == b;
      EmittedNil();
    } else {
      var e, t := a[0], a[1..];
      assert a == [e] + t && a + b == [e] + (t + b);
      EmittedAppend(t, b);
      EmittedCons(e, t);
      EmittedCons(e, t + b);
    }
  }

  lemma EmittedNil()
    ensures Emitted([]) == []
  {
  }

  /** The decoder emits each window with the sections and the copy window that
      were written for it. */
  ghost predicate Carries(s: Stream, w: Parts) {
    && s.data == w.data && s.inst == w.inst && s.addr == w.addr && s.delInd == w.delInd
    && s.cpyLen == w.srclen && s.cpyOff == (if w.srclen > 0 then w.srcbase else 0) && s.tgtLen == w.tgtlen
    && (Bit0(s.winInd) <==> w.srclen > 0) && (Bit2(s.winInd) <==> w.cksum.Some?)
    && (w.cksum.Some? ==> s.adler32 == w.cksum.value)
  }

  lemma LoadedCarries(s: Stream, w: Parts)
    ensures Carries(Loaded(s, w), w)
  {
  }

  lemma OneEmitted(s: Stream, w: Parts)
    ensures Emitted(Events(s, w)) == [Loaded(s, w)]
  {
    hide WithHeader, Loaded, After;
    var e := Events(s, w);
    assert e[1..] == [e[1], e[2]] && e[1..][1..] == [e[2]] && [e[2]][1..] == [];
    assert Emitted([e[2]]) == [] && Emitted([e[1], e[2]]) == [e[1].s] + Emitted([e[2]]);
  }

  /** What the decoder takes from file position `start` on: every window is accepted
      and begins at a position of 64 bits. */
  predicate AllAccepted(start: nat, sec: bool, ws: seq<Parts>)
    decreases |ws|
  {
    ws == [] || (start < XOFF_LIMIT && Accepted(sec, ws[0]) && AllAccepted(start + ws[0].tgtlen, sec, ws[1..]))
  }

  /** All windows are read and emitted, and the decoder waits for more, exactly if all
      are accepted. */
  lemma {:induction false} DriveWindows(emit: Stream -> bool, s: Stream, ws: seq<Parts>)
    requires Between(s) && forall i | 0 <= i < |ws| :: Held(ws[i])
    requires forall t, w | w in ws && Carries(t, w) :: emit(t)
    ensures var r := Drive(emit, s, Windows(ws));
      && (r.Waiting? <==> AllAccepted(s.winStart + s.tgtLen, s.secType, ws))
      && (r.Waiting? ==> |Emitted(r.events)| == |ws|)
      && |Emitted(r.events)| <= |ws| && forall i | 0 <= i < |Emitted(r.events)| :: Carries(Emitted(r.events)[i], ws[i])
    decreases |ws|
  {
    hide Drive, Between, Held, Accepted, HeaderPasses, SectionsFit, Carries, Loaded, After, Events, Window;
    if ws == [] {
      AtEnd(emit, s);
    } else {
      var w, t := ws[0], ws[1..];
      LoadedCarries(s, w);
      assert w in ws;
      DriveWindow(emit, s, w, Windows(t));
      AfterIsBetween(s, w);
      DriveWindows(emit, After(s, w), t);
      OneEmitted(s, w);
      EmittedAppend(Events(s, w), Drive(emit, After(s, w), Windows(t)).events);
      AcceptedIs(s, w);
    }
  }

  lemma AcceptedIs(s: Stream, w: Parts)
    ensures HeaderPasses(s, w) && SectionsFit(w) <==> s.winStart + s.tgtLen < XOFF_LIMIT && Accepted(s.secType, w)
  {
  }

  lemma AtEnd(emit: Stream -> bool, s: Stream)
    requires Between(s)
    ensures Drive(emit, s, []) == Waiting([], s)
  {
    hide Drive, Apply, Store, ReadFrom;
    assert Call(s, []) == Result(Input, s, []);
    DriveOn(emit, s, []);
  }

  /** The file header: perhaps a secondary compressor, no code table, and perhaps
      application data. */
  function Head(sec: bool, app: Option<seq<byte>>, rest: seq<byte>): seq<byte> {
    [0xd6, 0xc3, 0xc4, 0] + ([HeaderBits(sec, app)] + SecondaryId(sec, AppData(app, rest)))
  }

  function HeaderBits(sec: bool, app: Option<seq<byte>>): byte {
    (if sec then 1 else 0) + if app.Some? then 4 else 0
  }

  function SecondaryId(sec: bool, rest: seq<byte>): seq<byte> {
    if sec then [VCD_DJW_ID as byte] + rest else rest
  }

  function AppData(app: Option<seq<byte>>, rest: seq<byte>): seq<byte> {
    if app.Some? then Emit(|app.value|) + (app.value + rest) else rest
  }

  /** The state before the application data. */
  function AfterTables(sec: bool, app: Option<seq<byte>>): Stream {
    INIT.(phase := AppLen, magic := [0xd6, 0xc3, 0xc4, 0], hdrInd := HeaderBits(sec, app), near := 4, same := 3,
          secondId := if sec then VCD_DJW_ID else 0, secType := sec)
  }

  /** The decoder after the file header. */
  predicate HeadRead(s: Stream, sec: bool, app: Option<seq<byte>>) {
    && Between(s) && s.windowCount == 0 && s.winStart == 0 && s.tgtLen == 0 && s.secType == sec
    && (app.Some? ==> s.appHeader == app.value)
  }

  /** The application data fits, with the byte that the decoder puts behind it. */
  predicate AppFits(app: Option<seq<byte>>) {
    app.Some? ==> |app.value| + 1 < USIZE_LIMIT
  }

  /** The decoder reads the file header, and refuses it only if the application data
      does not fit. */
  lemma ReadHead(sec: bool, app: Option<seq<byte>>, rest: seq<byte>) returns (s: Stream)
    requires app.Some? ==> |app.value| < USIZE_LIMIT
    ensures HeadRead(s, sec, if AppFits(app) then app else None)
    ensures Call(INIT, Head(sec, app, rest)) == if AppFits(app) then Call(s, rest) else Error(InvalidInput)
  {
    hide Call, AppData, HeadRead;
    ReadTables(sec, app, AppData(app, rest));
    s := ReadApp(sec, app, rest);
  }

  lemma ReadTables(sec: bool, app: Option<seq<byte>>, rest: seq<byte>)
    ensures Call(INIT, [0xd6, 0xc3, 0xc4, 0] + ([HeaderBits(sec, app)] + SecondaryId(sec, rest)))
      == Call(AfterTables(sec, app), rest)
  {
    hide Call, Apply, Wants;
    var magic: seq<byte> := [0xd6, 0xc3, 0xc4, 0];
    var x := HeaderBits(sec, app);
    var s1 := INIT.(magic := magic, phase := HdrInd);
    var s2 := s1.(hdrInd := x, phase := SecondId);
    var s3 := s2.(secondId := if sec then VCD_DJW_ID else 0, secType := sec, phase := TabLen);
    ApplyHead(sec, app);
    BytesStep(INIT, magic, [x] + SecondaryId(sec, rest));
    ByteStep(s1, x, SecondaryId(sec, rest));
    if sec {
      ByteStep(s2, VCD_DJW_ID as byte, rest);
    } else {
      SkipStep(s2, rest);
    }
    SkipTables(s3, rest);
  }

  lemma ApplyHead(sec: bool, app: Option<seq<byte>>)
    ensures var magic: seq<byte> := [0xd6, 0xc3, 0xc4, 0];
      var x := HeaderBits(sec, app);
      var s1 := INIT.(magic := magic, phase := HdrInd);
      var s2 := s1.(hdrInd := x, phase := SecondId);
      var s3 := s2.(secondId := if sec then VCD_DJW_ID else 0, secType := sec, phase := TabLen);
      && Wants(INIT) == Bytes(0, |magic|) && Apply(Store(INIT, magic), 0) == Go(s1)
      && Wants(s1) == OneByte && Apply(s1, x) == Go(s2)
      && Wants(s2) == (if sec then OneByte else Skip) && Apply(s2, if sec then VCD_DJW_ID else 0) == Go(s3)
      && !Bit1(x)
  {
    assert [] + [0xd6, 0xc3, 0xc4, 0] == [0xd6, 0xc3, 0xc4, 0];
  }

  /** No code table. */
  lemma SkipTables(s: Stream, input: seq<byte>)
    requires s.phase == TabLen && !Bit1(s.hdrInd)
    ensures Call(s, input) == Call(s.(phase := AppLen, near := 4, same := 3), input)
  {
    hide Call;
    SkipStep(s, input);
    var s1 := Apply(s, 0).s;
    SkipStep(s1, input);
    var s2 := Apply(s1, 0).s;
    SkipStep(s2, input);
    SkipStep(Apply(s2, 0).s, input);
  }

  lemma ReadApp(sec: bool, app: Option<seq<byte>>, rest: seq<byte>) returns (s: Stream)
    requires app.Some? ==> |app.value| < USIZE_LIMIT
    ensures HeadRead(s, sec, if AppFits(app) then app else None)
    ensures Call(AfterTables(sec, app), AppData(app, rest)) == if AppFits(app) then Call(s, rest) else Error(InvalidInput)
  {
    hide Call, Emit;
    var s0 := AfterTables(sec, app);
    if app.Some? {
      SizeStep(s0, |app.value|, app.value + rest);
      var s1 := Apply(s0, |app.value|).s;
      assert [] + app.value == app.value;
      if AppFits(app) {
        BytesStep(s1, app.value, rest);
        s := Apply(Store(s1, app.value), 0).s;
      } else {
        SkipFails(s1, app.value + rest);
        s := s1.(phase := WinInd);
      }
    } else {
      SkipStep(s0, rest);
      var s1 := Apply(s0, 0).s;
      SkipStep(s1, rest);
      s := Apply(s1, 0).s;
    }
  }

  /** A whole delta file. */
  function File(sec: bool, app: Option<seq<byte>>, ws: seq<Parts>): seq<byte> {
    Head(sec, app, Windows(ws))
  }

  /** What the decoder accepts as a file: compressed sections only if a
      compressor was named, and no file position beyond 64 bits. */
  predicate FileAccepted(sec: bool, app: Option<seq<byte>>, ws: seq<Parts>) {
    AppFits(app) && AllAccepted(0, sec, ws)
  }

  /** A delta file with anything that the encoder's fields can hold, cut into chunks
      anyhow, is read to its end exactly if it is accepted: then every window is
      emitted once, in order, with what was written for it. Up to where it is refused
      that holds of any file. */
  lemma FileReads(emit: Stream -> bool, sec: bool, app: Option<seq<byte>>, ws: seq<Parts>, chunks: seq<seq<byte>>)
    requires (app.Some? ==> |app.value| < USIZE_LIMIT) && forall i | 0 <= i < |ws| :: Held(ws[i])
    requires chunks != [] && Flatten(chunks) == File(sec, app, ws)
    requires forall t, w | w in ws && Carries(t, w) :: emit(t)
    ensures var r := DriveAll(emit, INIT, chunks);
      && (r.Waiting? <==> FileAccepted(sec, app, ws))
      && (r.Waiting? ==> |Emitted(r.events)| == |ws|)
      && |Emitted(r.events)| <= |ws| && forall i | 0 <= i < |Emitted(r.events)| :: Carries(Emitted(r.events)[i], ws[i])
  {
    hide DriveAll, Drive, Between, Held, Carries, Call, Head, Windows, Flatten, AllAccepted;
    ChunkingDoesNotMatter(emit, INIT, chunks);
    var s := ReadHead(sec, app, Windows(ws));
    DriveWindows(emit, s, ws);
    DriveOn(emit, INIT, File(sec, app, ws));
    DriveOn(emit, s, Windows(ws));
  }

  lemma Shift(out: seq<byte>, x: seq<byte>, t: seq<byte>, whole: seq<byte>)
    requires whole == out + (x + t)
    ensures whole == (out + x) + t
  {
  }

  /** `xd3_emit_hdr`: `out` has the header of the file if this is the first
      window, and the header of the window; the three sections and `rest` are to
      follow. */
  method EmitHeader(w: Parts, first: bool, sec: bool, app: Option<seq<byte>>, ghost rest: seq<byte>) returns (out: seq<byte>)
    requires Held(w) && (app.Some? ==> |app.value| < USIZE_LIMIT)
    ensures out + Sections(w, rest) == if first then Head(sec, app, Window(w, rest)) else Window(w, rest)
  {
    hide Window, Sections;
    out := [];
    ghost var whole := if first then Head(sec, app, Window(w, rest)) else Window(w, rest);
    if first {
      out := EmitFileHeader(sec, app, Window(w, rest));
    }
    var header := EmitWindowHeader(w, rest);
    Shift(out, header, Sections(w, rest), whole);
    out := out + header;
  }

  /** The output of the encoder, window after window: header, DATA, INST, ADDR. */
  method WriteFile(sec: bool, app: Option<seq<byte>>, ws: seq<Parts>) returns (out: seq<byte>)
    requires ws != [] && (app.Some? ==> |app.value| < USIZE_LIMIT) && forall i | 0 <= i < |ws| :: Held(ws[i])
    ensures out == File(sec, app, ws)
  {
    hide Head, Window, Held;
    out := [];
    ghost var whole := File(sec, app, ws);
    assert ws[0..] == ws;
    for i := 0 to |ws|
      invariant whole == out + if i == 0 then Head(sec, app, Windows(ws[i..])) else Windows(ws[i..])
    {
      ghost var rest := Windows(ws[i + 1..]);
      WindowsStep(ws, i);
      var w := ws[i];
      var header := EmitHeader(w, i == 0, sec, app, rest);
      Shift(out, header, Sections(w, rest), whole);
      Shift(out + header, w.data, w.inst + (w.addr + rest), whole);
      Shift(out + header + w.data, w.inst, w.addr + rest, whole);
      Shift(out + header + w.data + w.inst, w.addr, rest, whole);
      out := out + header + w.data + w.inst + w.addr;
    }
  }

  lemma WindowsStep(ws: seq<Parts>, i: nat)
    requires i < |ws|
    ensures Windows(ws[i..]) == Window(ws[i], Windows(ws[i + 1..]))
  {
    assert ws[i..][1..] == ws[i + 1..];
  }

  /** A window of 2^24 + 1 bytes `x`, encoded as one run. */
  function LargeRun(x: byte): Parts {
    Parts(0, 0, XD3_HARDMAXWINSIZE + 1, 0, [x], [0] + Emit(XD3_HARDMAXWINSIZE + 1), [], None)
  }

  /** The encoder writes that window, and the decoder refuses it. */
  method RefusedWindow(x: byte, ghost s: Stream, ghost rest: seq<byte>) returns (header: seq<byte>)
    requires Between(s)
    ensures Held(LargeRun(x)) && header + Sections(LargeRun(x), rest) == Window(LargeRun(x), rest)
    ensures Call(s, header + Sections(LargeRun(x), rest)) == Error(InvalidInput)
  {
    hide Window, Sections, Call, Emit;
    var w := LargeRun(x);
    EmitSize(XD3_HARDMAXWINSIZE + 1);
    header := EmitHeader(w, false, false, None, rest);
    ReadHeader(s, w, rest);
  }

  method EmitFileHeader(sec: bool, app: Option<seq<byte>>, ghost rest: seq<byte>) returns (out: seq<byte>)
    requires app.Some? ==> |app.value| < USIZE_LIMIT
    ensures out + rest == Head(sec, app, rest)
  {
    hide Emit;
    ghost var whole := Head(sec, app, rest);
    var bits := HeaderBits(sec, app);
    out := [0xd6, 0xc3, 0xc4, 0];
    Shift(out, [bits], SecondaryId(sec, AppData(app, rest)), whole);
    out := out + [bits];
    if sec {
      var id: seq<byte> := [VCD_DJW_ID as byte];
      Shift(out, id, AppData(app, rest), whole);
      out := out + id;
    }
    if app.Some? {
      var size := EmitInteger(|app.value|);
      Shift(out, size, app.value + rest, whole);
      out := out + size;
      Shift(out, app.value, rest, whole);
      out := out + app.value;
    }
  }

  method EmitWindowHeader(w: Parts, ghost rest: seq<byte>) returns (out: seq<byte>)
    requires Held(w)
    ensures out + Sections(w, rest) == Window(w, rest)
  {
    hide Emit, Sections, Lengths, Encoding;
    ghost var whole := Window(w, rest);
    out := [Indicator(w)];
    if w.srclen > 0 {
      var len := EmitInteger(w.srclen);
      Shift(out, len, Emit(w.srcbase) + Encoding(w, rest), whole);
      out := out + len;
      var base := EmitInteger(w.srcbase);
      Shift(out, base, Encoding(w, rest), whole);
      out := out + base;
    }
    var encoding := EmitEncoding(w, rest);
    Shift(out, encoding, Lengths(w, rest), whole);
    out := out + encoding;
    var lengths := EmitLengths(w, rest);
    Shift(out, lengths, Sections(w, rest), whole);
    out := out + lengths;
  }

  method EmitEncoding(w: Parts, ghost rest: seq<byte>) returns (out: seq<byte>)
    requires Held(w)
    ensures out + Lengths(w, rest) == Encoding(w, rest)
  {
    hide Emit, Lengths, EncodingLength;
    LengthFits(w);
    ghost var whole := Encoding(w, rest);
    out := EmitInteger(EncodingLength(w));
    var tgtlen := EmitInteger(w.tgtlen);
    var del: seq<byte> := [w.delInd];
    Shift(out, tgtlen, del + Lengths(w, rest), whole);
    out := out + tgtlen;
    Shift(out, del, Lengths(w, rest), whole);
    out := out + del;
  }

  method EmitLengths(w: Parts, ghost rest: seq<byte>) returns (out: seq<byte>)
    requires Held(w)
    ensures out + Sections(w, rest) == Lengths(w, rest)
  {
    hide Emit, Sections, FourBytes;
    ghost var whole, s := Lengths(w, rest), Sections(w, rest);
    out := EmitInteger(|w.data|);
    var instlen := EmitInteger(|w.inst|);
    Shift(out, instlen, Emit(|w.addr|) + (Checksum(w) + s), whole);
    out := out + instlen;
    var addrlen := EmitInteger(|w.addr|);
    Shift(out, addrlen, Checksum(w) + s, whole);
    out := out + addrlen;
    if w.cksum.Some? {
      Shift(out, FourBytes(w.cksum.value), s, whole);
      out := out + FourBytes(w.cksum.value);
    } else {
      assert [] + s == s;
    }
  }
}
