/** The states of the resumable decoder: what each state reads, and what it does
    with it. */
module DecodeStates {
  import opened Bytes
  import opened Varint

  const XD3_HARDMAXWINSIZE := 0x100_0000
  const VCD_DJW_ID := 1

  /** `xd3_decode_state`, in the order of the input. */
  datatype Phase =
    | VcHead | HdrInd | SecondId | TabLen | Near | Same | TabDat | AppLen | AppDat
    | WinInd | CpyLen | CpyOff | EncLen | TgtLen | DelInd | DataLen | InstLen | AddrLen | Cksum
    | DataSect | InstSect | AddrSect | Emitting | Finish

  /** The bits of the three indicator bytes. */
  predicate Bit0(x: nat) { x % 2 == 1 }
  predicate Bit1(x: nat) { x / 2 % 2 == 1 }
  predicate Bit2(x: nat) { x / 4 % 2 == 1 }
  predicate OtherBits(x: nat) { x >= 8 }

  /** The decoder's fields of `xd3_stream`. Byte strings stand for a buffer and
      the count of bytes already in it. */
  datatype Stream = Stream(
    phase: Phase, part32: nat, part64: nat,
    magic: seq<byte>, hdrInd: nat, secondId: nat, secType: bool, codeTblSz: nat, near: nat, same: nat,
    appHeadSz: nat, appHeader: seq<byte>,
    winInd: nat, winStart: nat, windowCount: nat, currentWindow: nat,
    cpyLen: nat, cpyOff: nat, position: nat, encLen: nat, tgtLen: nat, maxPos: nat, delInd: nat,
    dataSize: nat, instSize: nat, addrSize: nat, cksum: seq<byte>, adler32: nat,
    data: seq<byte>, inst: seq<byte>, addr: seq<byte>)

  const INIT := Stream(VcHead, 0, 0, [], 0, 0, false, 0, 0, 0, 0, [], 0, 0, 0, 0, 0, 0, 0, 0, 0, 0, 0, 0, 0, 0, [], 0, [], [], [])

  /** What `xd3_decode_input` returns. `Ready` is the call of `xd3_decode_emit`. */
  datatype Code = Input | GotHeader | WinStart | Ready | WinFinish | InvalidInput | Internal | NoMem | Unimplemented

  /** A state reads nothing, one byte, an integer, or bytes up to a count. */
  datatype Item = Skip | OneByte | Size | Offset | Bytes(have: nat, want: nat)

  predicate SrcOrTgt(winInd: nat) {
    Bit0(winInd) != Bit1(winInd)
  }

  predicate SizeOverflow(a: nat, b: nat) {
    a + b >= USIZE_LIMIT
  }

  predicate SectionsOverflow(s: Stream) {
    s.instSize + s.addrSize + s.dataSize >= USIZE_LIMIT
  }

  function Wants(s: Stream): Item {
    match s.phase
    case VcHead => Bytes(|s.magic|, 4)
    case HdrInd => OneByte
    case SecondId => if Bit0(s.hdrInd) then OneByte else Skip
    case TabLen => if Bit1(s.hdrInd) then Size else Skip
    case Near => if Bit1(s.hdrInd) then OneByte else Skip
    case Same => if Bit1(s.hdrInd) then OneByte else Skip
    case TabDat => Skip
    case AppLen => if Bit2(s.hdrInd) then Size else Skip
    case AppDat => if Bit2(s.hdrInd) && !SizeOverflow(s.appHeadSz, 1) then Bytes(|s.appHeader|, s.appHeadSz) else Skip
    case WinInd => OneByte
    case CpyLen => if SrcOrTgt(s.winInd) then Size else Skip
    case CpyOff => if SrcOrTgt(s.winInd) then Offset else Skip
    case EncLen => Size
    case TgtLen => Size
    case DelInd => OneByte
    case DataLen => Size
    case InstLen => Size
    case AddrLen => Size
    case Cksum => if Bit2(s.winInd) then Bytes(|s.cksum|, 4) else Skip
    case DataSect => if SectionsOverflow(s) then Skip else Bytes(|s.data|, s.dataSize)
    case InstSect => if SectionsOverflow(s) then Skip else Bytes(|s.inst|, s.instSize)
    case AddrSect => if SectionsOverflow(s) then Skip else Bytes(|s.addr|, s.addrSize)
    case Emitting => Skip
    case Finish => Skip
  }

  /** Bytes go to the buffer of the state. */
  function Store(s: Stream, b: seq<byte>): Stream {
    match s.phase
    case VcHead => s.(magic := s.magic + b)
    case AppDat => s.(appHeader := s.appHeader + b)
    case Cksum => s.(cksum := s.cksum + b)
    case DataSect => s.(data := s.data + b)
    case InstSect => s.(inst := s.inst + b)
    case AddrSect => s.(addr := s.addr + b)
    case _ => s
  }

  /** Go on to the next state, return to the caller, or fail. */
  datatype Step = Go(s: Stream) | Return(code: Code, s: Stream) | Fail(code: Code)

  /** The magic bytes 0xd6 0xc3 0xc4 and version 0. */
  predicate MagicOk(m: seq<byte>) {
    |m| >= 4 && m[0] == 0xd6 && m[1] == 0xc3 && m[2] == 0xc4 && m[3] == 0
  }

  /** Section 4.3 of RFC 3284: the length of the delta encoding, which repeats
      what the other lengths say. */
  function EncLenCheck(s: Stream): nat {
    (1 + SizeOf(s.tgtLen) + SizeOf(s.dataSize) + SizeOf(s.instSize) + SizeOf(s.addrSize)
     + s.dataSize + s.instSize + s.addrSize + if Bit2(s.winInd) then 4 else 0) % USIZE_LIMIT
  }

  /** The checksum bytes, most significant first. */
  function Word(c: seq<byte>): nat {
    if c == [] then 0 else Word(c[..|c| - 1]) * 256 + c[|c| - 1]
  }

  /** What a state does once it has read its item; `v` is the value read. */
  function Apply(s: Stream, v: nat): Step {
    match s.phase
    case VcHead => if MagicOk(s.magic) then Go(s.(phase := HdrInd)) else Fail(InvalidInput)
    case HdrInd => if OtherBits(v) then Fail(InvalidInput) else Go(s.(hdrInd := v, phase := SecondId))
    case SecondId =>
      if !Bit0(s.hdrInd) then Go(s.(phase := TabLen))
      else if v == VCD_DJW_ID then Go(s.(secondId := v, secType := true, phase := TabLen))
      else if v == 2 || v == 16 then Fail(Internal)
      else Fail(InvalidInput)
    case TabLen =>
      if !Bit1(s.hdrInd) then Go(s.(phase := Near))
      else if v <= 2 then Fail(NoMem)
      else Go(s.(codeTblSz := v - 2, phase := Near))
    case Near => Go(if Bit1(s.hdrInd) then s.(near := v, phase := Same) else s.(phase := Same))
    case Same => Go(if Bit1(s.hdrInd) then s.(same := v, phase := TabDat) else s.(phase := TabDat))
    case TabDat => if Bit1(s.hdrInd) then Fail(Unimplemented) else Go(s.(near := 4, same := 3, phase := AppLen))
    case AppLen => Go(if Bit2(s.hdrInd) then s.(appHeadSz := v, phase := AppDat) else s.(phase := AppDat))
    case AppDat =>
      if Bit2(s.hdrInd) && SizeOverflow(s.appHeadSz, 1) then Fail(InvalidInput) else Go(s.(phase := WinInd))
    case WinInd =>
      if s.winStart + s.tgtLen >= XOFF_LIMIT then Fail(InvalidInput)
      else if OtherBits(v) then Fail(InvalidInput)
      else Go(s.(winInd := v, currentWindow := s.windowCount, winStart := s.winStart + s.tgtLen,
                 cpyLen := 0, cpyOff := 0, cksum := [], phase := CpyLen))
    case CpyLen =>
      var n := if SrcOrTgt(s.winInd) then v else s.cpyLen;
      Go(s.(cpyLen := n, position := n, phase := CpyOff))
    case CpyOff =>
      var n := if SrcOrTgt(s.winInd) then v else s.cpyOff;
      if n + s.cpyLen >= XOFF_LIMIT then Fail(InvalidInput)
      else if Bit1(s.winInd) && n + s.cpyLen > s.winStart then Fail(InvalidInput)
      else Go(s.(cpyOff := n, phase := EncLen))
    case EncLen => Go(s.(encLen := v, phase := TgtLen))
    case TgtLen =>
      if SizeOverflow(s.cpyLen, v) || v > XD3_HARDMAXWINSIZE then Fail(InvalidInput)
      else Go(s.(tgtLen := v, maxPos := s.cpyLen + v, phase := DelInd))
    case DelInd =>
      if OtherBits(v) || (v != 0 && !s.secType) then Fail(InvalidInput) else Go(s.(delInd := v, phase := DataLen))
    case DataLen => Go(s.(dataSize := v, phase := InstLen))
    case InstLen => Go(s.(instSize := v, phase := AddrLen))
    case AddrLen => Go(s.(addrSize := v, phase := Cksum))
    case Cksum =>
      var s' := s.(phase := DataSect, adler32 := if Bit2(s.winInd) then Word(s.cksum) else s.adler32);
      if s.encLen != EncLenCheck(s) then Fail(InvalidInput)
      else Return(if s.currentWindow == 0 then GotHeader else WinStart, s')
    case DataSect => if SectionsOverflow(s) then Fail(Internal) else Go(s.(phase := InstSect))
    case InstSect => if SectionsOverflow(s) then Fail(Internal) else Go(s.(phase := AddrSect))
    case AddrSect => if SectionsOverflow(s) then Fail(Internal) else Go(s.(phase := Emitting))
    case Emitting => Return(Ready, s)
    case Finish => Return(WinFinish, s.(windowCount := s.windowCount + 1, phase := WinInd))
  }

  /** One state on the input at hand: it waits for more, goes on, or ends the
      call. */
  datatype Turn = Blocked(s: Stream) | Moved(s: Stream, rest: seq<byte>) | Returned(code: Code, s: Stream, rest: seq<byte>) | Failed(code: Code)

  function Done(s: Stream, v: nat, rest: seq<byte>): Turn {
    match Apply(s, v)
    case Go(s') => Moved(s', rest)
    case Return(c, s') => Returned(c, s', rest)
    case Fail(c) => Failed(c)
  }

  function One(s: Stream, input: seq<byte>): Turn {
    match Wants(s)
    case Skip => Done(s, 0, input)
    case OneByte => if input == [] then Blocked(s) else Done(s, input[0], input[1..])
    case Size =>
      (match ReadFrom(s.part32, input, OFLOW32)
       case Ok(v, rest) => Done(s.(part32 := 0), v, rest)
       case Partial(p) => Blocked(s.(part32 := p))
       case Overflow => Failed(InvalidInput))
    case Offset =>
      (match ReadFrom(s.part64, input, OFLOW64)
       case Ok(v, rest) => Done(s.(part64 := 0), v, rest)
       case Partial(p) => Blocked(s.(part64 := p))
       case Overflow => Failed(InvalidInput))
    case Bytes(have, want) =>
      if want - have <= |input| then
        var n := Max(want - have, 0);
        Done(Store(s, input[..n]), 0, input[n..])
      else Blocked(Store(s, input))
  }

  /** States in the order in which a call without input could visit them. */
  function Rank(p: Phase): nat {
    match p
    case VcHead => 23 case HdrInd => 22 case SecondId => 21 case TabLen => 20 case Near => 19 case Same => 18
    case TabDat => 17 case AppLen => 16 case AppDat => 15
    case CpyLen => 14 case CpyOff => 13 case EncLen => 12 case TgtLen => 11 case DelInd => 10
    case DataLen => 9 case InstLen => 8 case AddrLen => 7 case Cksum => 6
    case DataSect => 5 case InstSect => 4 case AddrSect => 3 case Emitting => 2 case Finish => 1 case WinInd => 0
  }

  lemma ApplyRank(s: Stream, v: nat)
    ensures Apply(s, v).Go? && s.phase != WinInd ==> Rank(Apply(s, v).s.phase) < Rank(s.phase)
    ensures s.phase == WinInd ==> Wants(s) == OneByte
  {
    hide Word, EncLenCheck, MagicOk, OtherBits, SectionsOverflow, SizeOverflow, SrcOrTgt, Bit0, Bit1, Bit2;
  }

  lemma StorePhase(s: Stream, b: seq<byte>)
    ensures Store(s, b).phase == s.phase
  {
  }

  lemma Progress(s: Stream, input: seq<byte>)
    ensures var t := One(s, input);
      t.Moved? ==> |t.rest| < |input| || (|t.rest| == |input| && Rank(t.s.phase) < Rank(s.phase))
    ensures var t := One(s, input); t.Returned? ==> |t.rest| <= |input|
  {
    hide Apply, Store, Wants, Rank;
    ApplyRank(s, 0);
    match Wants(s)
    case Skip =>
    case OneByte =>
    case Size => RestIsSuffix(s.part32, input, OFLOW32);
    case Offset => RestIsSuffix(s.part64, input, OFLOW64);
    case Bytes(have, want) =>
      var n := Max(want - have, 0);
      if n <= |input| {
        StorePhase(s, input[..n]);
        ApplyRank(Store(s, input[..n]), 0);
      }
  }

  lemma ReturnRank(s: Stream, v: nat)
    ensures var t := Apply(s, v);
      t.Return? ==> t.code != Input && (if t.code == Ready then t.s.phase == Emitting && s.phase == Emitting
                                        else Rank(t.s.phase) < Rank(s.phase))
  {
    hide Word, EncLenCheck, MagicOk, OtherBits, SectionsOverflow, SizeOverflow, SrcOrTgt, Bit0, Bit1, Bit2;
  }

  lemma OneReturns(s: Stream, input: seq<byte>)
    ensures var t := One(s, input);
      t.Returned? ==>
        t.code != Input
        && if t.code == Ready then t.s.phase == Emitting && s.phase == Emitting else Rank(t.s.phase) < Rank(s.phase)
  {
    hide Apply, Wants, Store, Rank;
    match Wants(s)
    case Skip => ReturnRank(s, 0);
    case OneByte => if input != [] { ReturnRank(s, input[0]); }
    case Size =>
      var r := ReadFrom(s.part32, input, OFLOW32);
      if r.Ok? { ReturnRank(s.(part32 := 0), r.value); }
    case Offset =>
      var r := ReadFrom(s.part64, input, OFLOW64);
      if r.Ok? { ReturnRank(s.(part64 := 0), r.value); }
    case Bytes(have, want) =>
      var n := Max(want - have, 0);
      if n <= |input| {
        StorePhase(s, input[..n]);
        ReturnRank(Store(s, input[..n]), 0);
      }
  }

  /** A call of `xd3_decode_input`. */
  datatype Result = Result(code: Code, s: Stream, rest: seq<byte>) | Error(code: Code)

  function Call(s: Stream, input: seq<byte>): Result
    decreases |input|, Rank(s.phase)
  {
    Progress(s, input);
    match One(s, input)
    case Blocked(s') => Result(Input, s', [])
    case Moved(s', rest) => Call(s', rest)
    case Returned(c, s', rest) => Result(c, s', rest)
    case Failed(c) => Error(c)
  }

  /** Reading does not move to another state, and does not forget. */
  lemma StoreMore(s: Stream, a: seq<byte>, b: seq<byte>)
    ensures Store(Store(s, a), b) == Store(s, a + b)
  {
    match s.phase
    case VcHead => assert s.magic + a + b == s.magic + (a + b);
    case AppDat => assert s.appHeader + a + b == s.appHeader + (a + b);
    case Cksum => assert s.cksum + a + b == s.cksum + (a + b);
    case DataSect => assert s.data + a + b == s.data + (a + b);
    case InstSect => assert s.inst + a + b == s.inst + (a + b);
    case AddrSect => assert s.addr + a + b == s.addr + (a + b);
    case _ =>
  }

  lemma StoreWants(s: Stream, a: seq<byte>)
    requires Wants(s).Bytes?
    ensures Wants(Store(s, a)) == Bytes(Wants(s).have + |a|, Wants(s).want)
  {
    match s.phase
    case AppDat =>
    case _ =>
  }

  /** One state given more input: it resumes where it was blocked, and what it
      did without needing the new input it does again. */
  lemma OneResumes(s: Stream, a: seq<byte>, b: seq<byte>)
    ensures One(s, a + b) ==
      match One(s, a)
      case Blocked(s') => One(s', b)
      case Moved(s', rest) => Moved(s', rest + b)
      case Returned(c, s', rest) => Returned(c, s', rest + b)
      case Failed(c) => Failed(c)
  {
    hide Apply, Store, Wants;
    match Wants(s)
    case Skip =>
    case OneByte =>
      if a == [] { assert a + b == b; } else { assert (a + b)[1..] == a[1..] + b; }
    case Size =>
      ReadResumes(s.part32, a, b, OFLOW32);
      PartWants(s, ReadFrom(s.part32, a, OFLOW32));
    case Offset =>
      ReadResumes(s.part64, a, b, OFLOW64);
      PartWants(s, ReadFrom(s.part64, a, OFLOW64));
    case Bytes(have, want) =>
      BytesResume(s, a, b);
  }

  lemma PartWants(s: Stream, r: Read)
    ensures r.Partial? ==> Wants(s.(part32 := r.part)) == Wants(s) == Wants(s.(part64 := r.part))
    ensures r.Partial? ==> s.(part32 := r.part).(part32 := 0) == s.(part32 := 0)
    ensures r.Partial? ==> s.(part64 := r.part).(part64 := 0) == s.(part64 := 0)
  {
  }

  lemma BytesResume(s: Stream, a: seq<byte>, b: seq<byte>)
    requires Wants(s).Bytes?
    ensures One(s, a + b) ==
      match One(s, a)
      case Blocked(s') => One(s', b)
      case Moved(s', rest) => Moved(s', rest + b)
      case Returned(c, s', rest) => Returned(c, s', rest + b)
      case Failed(c) => Failed(c)
  {
    hide Apply, Store, Wants;
    var w := Wants(s);
    var n := Max(w.want - w.have, 0);
    if n <= |a| {
      assert (a + b)[..n] == a[..n] && (a + b)[n..] == a[n..] + b;
    } else {
      StoreWants(s, a);
      StoreMore(s, a, b);
      if n <= |a| + |b| {
        var m := n - |a|;
        assert (a + b)[..n] == a + b[..m] && (a + b)[n..] == b[m..];
        StoreMore(s, a, b[..m]);
      }
    }
  }

  /** A call given more input. */
  lemma {:induction false} CallResumes(s: Stream, a: seq<byte>, b: seq<byte>)
    ensures Call(s, a + b) ==
      match Call(s, a)
      case Result(c, s', rest) => if c == Input then Call(s', b) else Result(c, s', rest + b)
      case Error(c) => Error(c)
    decreases |a|, Rank(s.phase)
  {
    hide One;
    OneResumes(s, a, b);
    Progress(s, a);
    match One(s, a)
    case Blocked(s') =>
    case Moved(s', rest) => CallResumes(s', rest, b);
    case Returned(c, s', rest) => OneReturns(s, a);
    case Failed(c) =>
  }

  // What holds in every state, whatever the input.

  /** The file header as far as it has been read: the magic bytes, no unknown bits, a
      compressor exactly if one is named, the default code table. */
  predicate FileHeaderOk(s: Stream) {
    var n := Rank(s.phase);
    && (n <= 22 ==> MagicOk(s.magic)) && (n == 23 ==> |s.magic| <= 4)
    && (n <= 21 ==> !OtherBits(s.hdrInd))
    && (n >= 21 ==> !s.secType)
    && (n <= 20 ==> s.secType == Bit0(s.hdrInd) && (s.secType ==> s.secondId == VCD_DJW_ID))
    && (n <= 16 ==> !Bit1(s.hdrInd) && s.near == 4 && s.same == 3)
    && (n <= 14 && Bit2(s.hdrInd) ==> |s.appHeader| == s.appHeadSz && !SizeOverflow(s.appHeadSz, 1))
    && (n >= 16 ==> s.appHeader == []) && (n == 15 && Bit2(s.hdrInd) ==> |s.appHeader| <= s.appHeadSz || s.appHeader == [])
  }

  /** The header of a window as far as it has been read: no unknown bits; a copy window
      whose end fits, and lies within what has been decoded if it is of the target; a
      target that fits behind it and is not too large; compressed sections only if the
      file header names a compressor; and at the end the length that repeats the others,
      and the checksum. */
  predicate WindowHeaderOk(s: Stream) {
    var n := Rank(s.phase);
    && (0 < n <= 14 ==> !OtherBits(s.winInd) && s.winStart < XOFF_LIMIT)
    && (0 < n <= 13 ==> (SrcOrTgt(s.winInd) || s.cpyLen == 0) && s.position == s.cpyLen)
    && (n == 14 ==> s.cpyLen == 0) && (n == 14 || n == 13 ==> s.cpyOff == 0)
    && (0 < n <= 12 ==> (SrcOrTgt(s.winInd) || s.cpyOff == 0) && s.cpyOff + s.cpyLen < XOFF_LIMIT)
    && (0 < n <= 12 && Bit1(s.winInd) ==> s.cpyOff + s.cpyLen <= s.winStart)
    && (0 < n <= 10 ==> !SizeOverflow(s.cpyLen, s.tgtLen) && s.tgtLen <= XD3_HARDMAXWINSIZE && s.maxPos == s.cpyLen + s.tgtLen)
    && (0 < n <= 9 ==> !OtherBits(s.delInd) && (s.delInd != 0 ==> s.secType))
    && (6 < n <= 14 ==> s.cksum == []) && (n == 6 ==> |s.cksum| <= 4)
    && (0 < n <= 5 ==> s.encLen == EncLenCheck(s) && (Bit2(s.winInd) ==> |s.cksum| == 4 && s.adler32 == Word(s.cksum)))
  }

  /** The sections as far as they have been read. */
  predicate SectionsSane(s: Stream) {
    var n := Rank(s.phase);
    && (n == 2 || n == 3 || n == 4 ==> !SectionsOverflow(s) && |s.data| == s.dataSize)
    && (n == 5 ==> |s.data| <= s.dataSize || s.data == []) && (n < 2 || n > 5 ==> s.data == [])
    && (n == 2 || n == 3 ==> |s.inst| == s.instSize)
    && (n == 4 ==> |s.inst| <= s.instSize) && (n < 2 || n > 4 ==> s.inst == [])
    && (n == 2 ==> |s.addr| == s.addrSize)
    && (n == 3 ==> |s.addr| <= s.addrSize) && (n < 2 || n > 3 ==> s.addr == [])
  }

  predicate Sane(s: Stream) {
    FileHeaderOk(s) && WindowHeaderOk(s) && SectionsSane(s)
  }

  /** The bytes a state waits for, stored, are as many as it wants. */
  predicate Filled(s: Stream) {
    Wants(s).Bytes? ==> Wants(s).have == Wants(s).want
  }

  lemma ApplyFileHeader(s: Stream, v: nat)
    requires FileHeaderOk(s) && Filled(s)
    ensures match Apply(s, v) case Go(t) => FileHeaderOk(t) case Return(_, t) => FileHeaderOk(t) case Fail(_) => true
  {
    hide FileHeaderOk, Apply, Filled;
    if Rank(s.phase) <= 14 { LateFileHeader(s, v); } else { EarlyFileHeader(s, v); }
  }

  lemma LateFileHeader(s: Stream, v: nat)
    requires FileHeaderOk(s) && Rank(s.phase) <= 14
    ensures match Apply(s, v) case Go(t) => FileHeaderOk(t) case Return(_, t) => FileHeaderOk(t) case Fail(_) => true
  {
    hide Apply, MagicOk, Bit0, Bit1, Bit2, OtherBits, SizeOverflow;
    LateKeeps(s, v);
  }

  predicate SameFileHeader(s: Stream, t: Stream) {
    && t.magic == s.magic && t.hdrInd == s.hdrInd && t.secType == s.secType && t.secondId == s.secondId && t.near == s.near
    && t.same == s.same && t.appHeader == s.appHeader && t.appHeadSz == s.appHeadSz && Rank(t.phase) <= 14
  }

  lemma LateKeeps(s: Stream, v: nat)
    requires Rank(s.phase) <= 14
    ensures match Apply(s, v) case Go(t) => SameFileHeader(s, t) case Return(_, t) => SameFileHeader(s, t) case Fail(_) => true
  {
    hide Apply, SameFileHeader;
    if 7 <= Rank(s.phase) { HeaderKeeps(s, v); } else { RestKeeps(s, v); }
  }

  lemma HeaderKeeps(s: Stream, v: nat)
    requires 7 <= Rank(s.phase) <= 14
    ensures match Apply(s, v) case Go(t) => SameFileHeader(s, t) case Return(_, t) => SameFileHeader(s, t) case Fail(_) => true
  {
    hide Word, EncLenCheck, MagicOk, Bit0, Bit1, Bit2, SrcOrTgt, OtherBits, SizeOverflow, SectionsOverflow;
  }

  lemma RestKeeps(s: Stream, v: nat)
    requires Rank(s.phase) < 7
    ensures match Apply(s, v) case Go(t) => SameFileHeader(s, t) case Return(_, t) => SameFileHeader(s, t) case Fail(_) => true
  {
    hide Word, EncLenCheck, MagicOk, Bit0, Bit1, Bit2, SrcOrTgt, OtherBits, SizeOverflow, SectionsOverflow;
  }

  lemma EarlyFileHeader(s: Stream, v: nat)
    requires FileHeaderOk(s) && Filled(s) && Rank(s.phase) > 14
    ensures match Apply(s, v) case Go(t) => FileHeaderOk(t) case Return(_, t) => FileHeaderOk(t) case Fail(_) => true
  {
    hide Word, EncLenCheck, MagicOk, Bit0, Bit1, Bit2, SrcOrTgt, OtherBits, SizeOverflow, SectionsOverflow;
  }

  lemma CheckSame(s: Stream, t: Stream)
    requires t == s.(phase := t.phase, adler32 := t.adler32, data := t.data, inst := t.inst, addr := t.addr)
    ensures EncLenCheck(t) == EncLenCheck(s)
  {
    hide SizeOf;
  }

  lemma ApplyWindowHeader(s: Stream, v: nat)
    requires WindowHeaderOk(s) && Filled(s)
    ensures match Apply(s, v) case Go(t) => WindowHeaderOk(t) case Return(_, t) => WindowHeaderOk(t) case Fail(_) => true
  {
    hide WindowHeaderOk, Apply, Filled;
    if 0 < Rank(s.phase) <= 6 { LateWindowHeader(s, v); } else { EarlyWindowHeader(s, v); }
  }

  lemma LateWindowHeader(s: Stream, v: nat)
    requires WindowHeaderOk(s) && Filled(s) && 0 < Rank(s.phase) <= 6
    ensures match Apply(s, v) case Go(t) => WindowHeaderOk(t) case Return(_, t) => WindowHeaderOk(t) case Fail(_) => true
  {
    hide Word, EncLenCheck, MagicOk, Bit0, Bit1, Bit2, SrcOrTgt, OtherBits, SizeOverflow, SectionsOverflow;
    match Apply(s, v)
    case Go(t) => CheckSame(s, t);
    case Return(_, t) => if s.phase != Finish { CheckSame(s, t); }
    case Fail(_) =>
  }

  lemma EarlyWindowHeader(s: Stream, v: nat)
    requires WindowHeaderOk(s) && (Rank(s.phase) == 0 || Rank(s.phase) > 6)
    ensures match Apply(s, v) case Go(t) => WindowHeaderOk(t) case Return(_, t) => WindowHeaderOk(t) case Fail(_) => true
  {
    hide Word, EncLenCheck, MagicOk, Bit0, Bit1, Bit2, SrcOrTgt, OtherBits, SizeOverflow, SectionsOverflow;
  }

  lemma ApplySections(s: Stream, v: nat)
    requires SectionsSane(s) && Filled(s)
    ensures match Apply(s, v) case Go(t) => SectionsSane(t) case Return(_, t) => SectionsSane(t) case Fail(_) => true
  {
    hide Word, EncLenCheck, MagicOk, Bit0, Bit1, Bit2, SrcOrTgt, OtherBits, SizeOverflow;
    if Rank(s.phase) > 5 || Rank(s.phase) == 0 {
      hide SectionsOverflow, Wants;
      ApplyKeeps(s, v);
    }
  }

  /** No header state touches the sections. */
  lemma ApplyKeeps(s: Stream, v: nat)
    ensures match Apply(s, v)
            case Go(t) => t.data == s.data && t.inst == s.inst && t.addr == s.addr
            case Return(_, t) => t.data == s.data && t.inst == s.inst && t.addr == s.addr
            case Fail(_) => true
    ensures Rank(s.phase) > 5 ==>
      match Apply(s, v) case Go(t) => Rank(t.phase) >= 5 || t.phase == WinInd case Return(_, t) => t.phase == DataSect case Fail(_) => true
    ensures s.phase == WinInd && Apply(s, v).Go? ==> Apply(s, v).s.phase == CpyLen
    ensures s.phase == WinInd ==> !Apply(s, v).Return?
  {
    hide Word, EncLenCheck, MagicOk, Bit0, Bit1, Bit2, SrcOrTgt, OtherBits, SizeOverflow, SectionsOverflow;
  }

  lemma ApplySane(s: Stream, v: nat)
    requires Sane(s) && Filled(s)
    ensures match Apply(s, v) case Go(t) => Sane(t) case Return(_, t) => Sane(t) case Fail(_) => true
  {
    hide FileHeaderOk, WindowHeaderOk, SectionsSane, Apply, Filled;
    ApplyFileHeader(s, v);
    ApplyWindowHeader(s, v);
    ApplySections(s, v);
  }

  lemma StoreFileHeader(s: Stream, b: seq<byte>)
    requires FileHeaderOk(s) && Wants(s).Bytes? && |b| <= Max(Wants(s).want - Wants(s).have, 0)
    ensures FileHeaderOk(Store(s, b))
  {
    hide MagicOk, Bit0, Bit1, SrcOrTgt, OtherBits, SizeOverflow;
  }

  lemma StoreWindowHeader(s: Stream, b: seq<byte>)
    requires WindowHeaderOk(s) && Wants(s).Bytes? && |b| <= Max(Wants(s).want - Wants(s).have, 0)
    ensures WindowHeaderOk(Store(s, b))
  {
    hide Word, EncLenCheck, MagicOk, Bit0, Bit1, SrcOrTgt, OtherBits, SizeOverflow;
    if 0 < Rank(s.phase) <= 5 { CheckSame(s, Store(s, b)); }
  }

  lemma StoreSections(s: Stream, b: seq<byte>)
    requires SectionsSane(s) && Wants(s).Bytes? && |b| <= Max(Wants(s).want - Wants(s).have, 0)
    ensures SectionsSane(Store(s, b))
  {
    hide Bit0, Bit1, Bit2, SrcOrTgt, OtherBits, SizeOverflow;
  }

  lemma StoreSane(s: Stream, b: seq<byte>)
    requires Sane(s) && Wants(s).Bytes? && |b| <= Max(Wants(s).want - Wants(s).have, 0)
    ensures Sane(Store(s, b)) && (|b| == Max(Wants(s).want - Wants(s).have, 0) ==> Filled(Store(s, b)))
  {
    hide FileHeaderOk, WindowHeaderOk, SectionsSane, Store, Wants;
    StoreFileHeader(s, b);
    StoreWindowHeader(s, b);
    StoreSections(s, b);
    StoreWants(s, b);
    WantsLeft(s);
  }

  lemma WantsLeft(s: Stream)
    requires Sane(s) && Wants(s).Bytes?
    ensures Wants(s).have <= Wants(s).want
  {
    hide MagicOk, Bit0, Bit1, SrcOrTgt, OtherBits, SizeOverflow, SectionsOverflow, EncLenCheck, Word;
  }

  lemma PartSane(s: Stream, p: nat)
    requires Sane(s)
    ensures Sane(s.(part32 := p)) && Sane(s.(part64 := p))
  {
    hide MagicOk, Bit0, Bit1, Bit2, SrcOrTgt, OtherBits, SizeOverflow, SizeOf, Word;
  }

  /** One state on any input: what it was to check has been checked when it is left. */
  lemma OneSane(s: Stream, input: seq<byte>)
    requires Sane(s)
    ensures match One(s, input) case Blocked(t) => Sane(t) case Moved(t, _) => Sane(t) case Returned(_, t, _) => Sane(t) case Failed(_) => true
  {
    hide Sane, Apply, Wants, Store;
    match Wants(s)
    case Skip => ApplySane(s, 0);
    case OneByte => if input != [] { ApplySane(s, input[0]); }
    case Size =>
      PartSane(s, 0);
      var r := ReadFrom(s.part32, input, OFLOW32);
      FilledPart(s);
      if r.Ok? { ApplySane(s.(part32 := 0), r.value); }
      if r.Partial? { PartSane(s, r.part); }
    case Offset =>
      PartSane(s, 0);
      var r := ReadFrom(s.part64, input, OFLOW64);
      FilledPart(s);
      if r.Ok? { ApplySane(s.(part64 := 0), r.value); }
      if r.Partial? { PartSane(s, r.part); }
    case Bytes(have, want) =>
      if want - have <= |input| {
        var n := Max(want - have, 0);
        StoreSane(s, input[..n]);
        ApplySane(Store(s, input[..n]), 0);
      } else {
        StoreSane(s, input);
      }
  }

  lemma FilledPart(s: Stream)
    ensures !Wants(s).Bytes? ==> Filled(s.(part32 := 0)) && Filled(s.(part64 := 0))
  {
  }

  lemma {:induction false} CallSane(s: Stream, input: seq<byte>)
    requires Sane(s)
    ensures Call(s, input).Result? ==> Sane(Call(s, input).s)
    decreases |input|, Rank(s.phase)
  {
    hide Sane, One;
    Progress(s, input);
    OneSane(s, input);
    var t := One(s, input);
    if t.Moved? { CallSane(t.s, t.rest); }
  }
}
