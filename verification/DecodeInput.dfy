/** The resumable decoder of headers and sections, and its independence from how
    the input is cut into chunks. */
module DecodeInput {
  import opened Bytes
  import opened DecodeStates
  import opened Varint

  datatype Event = Event(code: Code, s: Stream)

  /** What an application sees: the returns of `xd3_decode_input` other than
      XD3_INPUT with the state at each, and how it ends. */
  datatype Run = Waiting(events: seq<Event>, s: Stream) | Ended(events: seq<Event>, code: Code)

  function Prepend(events: seq<Event>, r: Run): Run {
    match r
    case Waiting(e, s) => Waiting(events + e, s)
    case Ended(e, c) => Ended(events + e, c)
  }

  /** `xd3_decode_finish_window`, after the window was emitted. */
  function Finished(s: Stream): Stream {
    s.(phase := Finish, data := [], inst := [], addr := [])
  }

  /** The application's loop on one buffer: call until more input is needed.
      `emit` says whether a window is emitted without an error. */
  function Drive(emit: Stream -> bool, s: Stream, input: seq<byte>): Run
    decreases |input|, Rank(s.phase)
  {
    CallProgress(s, input);
    match Call(s, input)
    case Error(c) => Ended([], c)
    case Result(c, s', rest) =>
      if c == Input then Waiting([], s')
      else if c == Ready then
        if emit(s') then Prepend([Event(c, s')], Drive(emit, Finished(s'), rest)) else Ended([Event(c, s')], InvalidInput)
      else Prepend([Event(c, s')], Drive(emit, s', rest))
  }

  lemma {:induction false} CallProgress(s: Stream, input: seq<byte>)
    ensures var r := Call(s, input);
      r.Result? && r.code != Input ==>
        |r.rest| <= |input|
        && if r.code == Ready then r.s.phase == Emitting && (|r.rest| < |input| || 2 <= Rank(s.phase))
           else |r.rest| < |input| || Rank(r.s.phase) < Rank(s.phase)
    decreases |input|, Rank(s.phase)
  {
    hide One;
    Progress(s, input);
    OneReturns(s, input);
    var t := One(s, input);
    if t.Moved? {
      CallProgress(t.s, t.rest);
    }
  }

  /** The application's loop given a second buffer. */
  lemma {:induction false} DriveResumes(emit: Stream -> bool, s: Stream, a: seq<byte>, b: seq<byte>)
    ensures Drive(emit, s, a + b) ==
      match Drive(emit, s, a)
      case Waiting(e, s') => Prepend(e, Drive(emit, s', b))
      case Ended(e, c) => Ended(e, c)
    decreases |a|, Rank(s.phase)
  {
    hide Call;
    CallResumes(s, a, b);
    CallProgress(s, a);
    var r := Call(s, a);
    if r.Result? && r.code == Input {
      PrependNothing(Drive(emit, r.s, b));
    } else if r.Result? && r.code == Ready {
      if emit(r.s) {
        DriveResumes(emit, Finished(r.s), r.rest, b);
        PrependTwice(Event(r.code, r.s), Drive(emit, Finished(r.s), r.rest).events);
      }
    } else if r.Result? {
      DriveResumes(emit, r.s, r.rest, b);
      PrependTwice(Event(r.code, r.s), Drive(emit, r.s, r.rest).events);
    }
  }

  lemma PrependNothing(r: Run)
    ensures Prepend([], r) == r
  {
  }

  lemma PrependTwice(x: Event, e: seq<Event>)
    ensures forall r: Run :: Prepend([x], Prepend(e, r)) == Prepend([x] + e, r)
  {
    forall r: Run ensures Prepend([x], Prepend(e, r)) == Prepend([x] + e, r) {
      assert [x] + (e + r.events) == [x] + e + r.events;
    }
  }

  function Flatten(chunks: seq<seq<byte>>): seq<byte> {
    if chunks == [] then [] else chunks[0] + Flatten(chunks[1..])
  }

  /** One buffer after the other. */
  function DriveAll(emit: Stream -> bool, s: Stream, chunks: seq<seq<byte>>): Run
    requires chunks != []
    decreases |chunks|
  {
    var r := Drive(emit, s, chunks[0]);
    if |chunks| == 1 || r.Ended? then r else Prepend(r.events, DriveAll(emit, r.s, chunks[1..]))
  }

  /** However the input is cut, the application sees the same returns with the
      same header fields and section contents, and the decoder waits in the same
      state or fails with the same error. */
  lemma {:induction false} ChunkingDoesNotMatter(emit: Stream -> bool, s: Stream, chunks: seq<seq<byte>>)
    requires chunks != []
    ensures DriveAll(emit, s, chunks) == Drive(emit, s, Flatten(chunks))
    decreases |chunks|
  {
    hide Drive;
    if |chunks| == 1 {
      assert Flatten(chunks) == chunks[0] + [] == chunks[0];
    } else {
      DriveResumes(emit, s, chunks[0], Flatten(chunks[1..]));
      var r := Drive(emit, s, chunks[0]);
      if r.Waiting? { ChunkingDoesNotMatter(emit, r.s, chunks[1..]); }
    }
  }

  /** A window as it is emitted: the header's fields have passed every check of section 4
      of RFC 3284, the length that repeats the others among them, and the sections are
      there in full. */
  predicate Checked(s: Stream) {
    && s.phase == Emitting && !OtherBits(s.winInd) && s.encLen == EncLenCheck(s)
    && !SizeOverflow(s.cpyLen, s.tgtLen) && s.tgtLen <= XD3_HARDMAXWINSIZE && s.cpyOff + s.cpyLen < XOFF_LIMIT
    && (Bit1(s.winInd) ==> s.cpyOff + s.cpyLen <= s.winStart) && (SrcOrTgt(s.winInd) || (s.cpyLen == 0 && s.cpyOff == 0))
    && !OtherBits(s.delInd) && (s.delInd != 0 ==> s.secType && Bit0(s.hdrInd))
    && |s.data| == s.dataSize && |s.inst| == s.instSize && |s.addr| == s.addrSize && !SectionsOverflow(s)
    && (Bit2(s.winInd) ==> |s.cksum| == 4 && s.adler32 == Word(s.cksum))
  }

  lemma SaneChecked(s: Stream)
    requires Sane(s) && s.phase == Emitting
    ensures Checked(s)
  {
    hide MagicOk, EncLenCheck, Word, OtherBits, SizeOverflow, SectionsOverflow, Bit0, Bit1, Bit2, SrcOrTgt;
  }

  lemma FinishedSane(s: Stream)
    requires Sane(s) && s.phase == Emitting
    ensures Sane(Finished(s))
  {
    hide MagicOk, Word, OtherBits, SizeOverflow, SectionsOverflow, Bit0, Bit1, Bit2, SrcOrTgt, SizeOf;
  }

  /** Whatever the input is: in every state that the application sees, everything read so
      far has been checked, and nothing is emitted that has not passed all checks. */
  lemma {:induction false} DriveSane(emit: Stream -> bool, s: Stream, input: seq<byte>)
    requires Sane(s)
    ensures var r := Drive(emit, s, input);
      && (forall e | e in r.events :: Sane(e.s) && (e.code == Ready ==> Checked(e.s)))
      && (r.Waiting? ==> Sane(r.s))
    decreases |input|, Rank(s.phase)
  {
    hide Sane, Checked, Call;
    CallSane(s, input);
    CallProgress(s, input);
    var r := Call(s, input);
    if r.Result? && r.code == Ready {
      SaneChecked(r.s);
      FinishedSane(r.s);
      if emit(r.s) { DriveSane(emit, Finished(r.s), r.rest); }
    } else if r.Result? && r.code != Input {
      DriveSane(emit, r.s, r.rest);
    }
  }

  /** The same for any number of buffers, from the start of a file. */
  lemma AllChecked(emit: Stream -> bool, chunks: seq<seq<byte>>)
    requires chunks != []
    ensures var r := DriveAll(emit, INIT, chunks);
      (forall e | e in r.events :: Sane(e.s) && (e.code == Ready ==> Checked(e.s))) && (r.Waiting? ==> Sane(r.s))
  {
    hide Drive, DriveAll, Checked, Sane;
    ChunkingDoesNotMatter(emit, INIT, chunks);
    InitSane();
    DriveSane(emit, INIT, Flatten(chunks));
  }

  lemma InitSane()
    ensures Sane(INIT)
  {
  }

  /** A window whose length does not repeat the others is refused as soon as its header
      has been read. */
  lemma WrongLengthRefused(s: Stream, input: seq<byte>)
    requires s.phase == Cksum && s.encLen != EncLenCheck(s) && |s.cksum| <= 4 && 4 - |s.cksum| <= |input|
    ensures Call(s, input) == Error(InvalidInput)
  {
    hide Word, SizeOf;
  }
}
