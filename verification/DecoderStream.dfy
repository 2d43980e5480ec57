/** `xd3_decode_input` as it runs: on a buffer, with a cursor. */
module DecoderStream {
  import opened Bytes
  import opened Options
  import opened Varint
  import opened DecodeStates

  /** What one or more cases did: nothing but what `Call` says is done in the
      end, and some progress. */
  ghost predicate Did(s: Stream, input: seq<byte>, ret: Option<Code>, s': Stream, rest: seq<byte>) {
    match ret
    case None =>
      Call(s', rest) == Call(s, input)
      && (|rest| < |input| || (|rest| == |input| && Rank(s'.phase) < Rank(s.phase)))
    case Some(c) => Call(s, input) == (if Broken(c) then Error(c) else Result(c, s', rest))
  }

  predicate Broken(c: Code) {
    c == InvalidInput || c == Internal || c == NoMem || c == Unimplemented
  }

  /** One case, in terms of `One`. */
  lemma CaseDid(s: Stream, input: seq<byte>, ret: Option<Code>, s': Stream, rest: seq<byte>)
    requires match One(s, input)
      case Blocked(t) => ret == Some(Input) && s' == t && rest == []
      case Moved(t, r) => ret == None && s' == t && rest == r
      case Returned(c, t, r) => ret == Some(c) && !Broken(c) && s' == t && rest == r
      case Failed(c) => ret == Some(c) && Broken(c)
    ensures Did(s, input, ret, s', rest)
  {
    hide One;
    Progress(s, input);
  }

  /** How much of the sections has been read. */
  function WinBytes(s: Stream): nat {
    |s.data| + |s.inst| + |s.addr|
  }

  /** Sections are read one after the other, into buffers of the announced
      sizes. */
  ghost predicate SectionsOk(s: Stream) {
    match s.phase
    case DataSect => |s.data| <= s.dataSize && s.inst == [] && s.addr == []
    case InstSect => |s.data| == s.dataSize && |s.inst| <= s.instSize && s.addr == []
    case AddrSect => |s.data| == s.dataSize && |s.inst| == s.instSize && |s.addr| <= s.addrSize
    case Emitting => |s.data| == s.dataSize && |s.inst| == s.instSize && |s.addr| == s.addrSize
    case _ => s.data == [] && s.inst == [] && s.addr == []
  }

  lemma MagicTurn(s: Stream, input: seq<byte>)
    requires s.phase == VcHead
    ensures var n := Max(4 - |s.magic|, 0);
      One(s, input) ==
        if n <= |input| then
          var t := s.(magic := s.magic + input[..n]);
          if MagicOk(t.magic) then Moved(t.(phase := HdrInd), input[n..]) else Failed(InvalidInput)
        else Blocked(s.(magic := s.magic + input))
  {
    hide MagicOk;
  }

  lemma CksumTurn(s: Stream, input: seq<byte>)
    requires s.phase == Cksum
    ensures var n := if Bit2(s.winInd) then Max(4 - |s.cksum|, 0) else 0;
      One(s, input) ==
        if n <= |input| then
          var t := if Bit2(s.winInd) then s.(cksum := s.cksum + input[..n]) else s;
          var u := t.(phase := DataSect, adler32 := if Bit2(s.winInd) then Word(t.cksum) else s.adler32);
          if s.encLen != EncLenCheck(s) then Failed(InvalidInput)
          else Returned(if s.currentWindow == 0 then GotHeader else WinStart, u, input[n..])
        else Blocked(s.(cksum := s.cksum + input))
  {
    hide Word, SizeOf;
    assert input[0..] == input;
  }

  lemma SameCheck(s: Stream, t: Stream)
    requires t == s.(cksum := t.cksum, adler32 := t.adler32)
    ensures EncLenCheck(t) == EncLenCheck(s)
  {
  }

  class Decoder {
    var st: Stream
    var nextIn: seq<byte>

    ghost predicate Valid()
      reads this
    {
      SectionsOk(st)
    }

    constructor ()
      ensures Valid() && st == INIT && nextIn == []
    {
      st, nextIn := INIT, [];
    }

    /** `xd3_avail_input`. */
    method AvailInput(buf: seq<byte>)
      requires nextIn == []
      modifies this`nextIn
      ensures nextIn == buf
    {
      nextIn := buf;
    }

    /** `xd3_decode_byte`. */
    method DecodeByte() returns (val: Option<byte>)
      modifies this`nextIn
      ensures if old(nextIn) == [] then val == None && nextIn == []
              else val == Some(old(nextIn)[0]) && nextIn == old(nextIn)[1..]
    {
      if |nextIn| == 0 {
        return None;
      }
      val := Some(nextIn[0]);
      nextIn := nextIn[1..];
    }

    /** `xd3_decode_bytes`; the position is the length of the buffer. */
    method DecodeBytes(buf0: seq<byte>, size: nat) returns (ok: bool, buf: seq<byte>)
      modifies this`nextIn
      ensures var n := Max(size - |buf0|, 0);
        if n <= |old(nextIn)| then ok && buf == buf0 + old(nextIn)[..n] && nextIn == old(nextIn)[n..]
        else !ok && buf == buf0 + old(nextIn) && nextIn == []
    {
      buf := buf0;
      ghost var input, took := nextIn, 0;
      while |buf| < size
        invariant 0 <= took <= |input| && nextIn == input[took..] && buf == buf0 + input[..took]
        invariant took <= Max(size - |buf0|, 0)
        decreases size - |buf|
      {
        if |nextIn| == 0 {
          return false, buf;
        }
        var want := size - |buf|;
        var take := Min(want, |nextIn|);
        assert input[..took + take] == input[..took] + nextIn[..take];
        buf := buf + nextIn[..take];
        nextIn := nextIn[take..];
        took := took + take;
      }
      ok := true;
    }

    /** DECODE_INTEGER_TYPE; `rest` of a number read is what is left. */
    method DecodeInteger(part0: nat, oflow: nat) returns (r: Read)
      modifies this`nextIn
      ensures r == ReadFrom(part0, old(nextIn), oflow)
      ensures r.Ok? ==> nextIn == r.rest
      ensures r.Partial? ==> nextIn == []
    {
      var part: nat := part0;
      while |nextIn| != 0
        invariant ReadFrom(part0, old(nextIn), oflow) == ReadFrom(part, nextIn, oflow)
        decreases |nextIn|
      {
        var next := nextIn[0];
        nextIn := nextIn[1..];
        if part >= oflow {
          return Overflow;
        }
        part := part * 128 + next % 128;
        if next < 128 {
          return Ok(part, nextIn);
        }
      }
      r := Partial(part);
    }

    /** BYTE_CASE: `v` is the byte, or zero when none is wanted. */
    method ByteCase(expr: bool) returns (blocked: bool, v: nat)
      requires expr ==> Wants(st) == OneByte
      requires !expr ==> Wants(st) == Skip
      modifies this`nextIn
      ensures One(st, old(nextIn)) == (if blocked then Blocked(st) else Done(st, v, nextIn))
      ensures blocked ==> nextIn == []
    {
      v, blocked := 0, false;
      if expr {
        var b := DecodeByte();
        if b == None {
          return true, 0;
        }
        v := b.value;
      }
    }

    /** SIZE_CASE, with the failure of an integer that does not fit. */
    method SizeCase(expr: bool) returns (ret: Option<Code>, v: nat)
      requires Wants(st) == if expr then Size else Skip
      modifies this`nextIn, this`st
      ensures One(old(st), old(nextIn)) ==
        if ret == Some(Input) then Blocked(st) else if ret.Some? then Failed(ret.value) else Done(st, v, nextIn)
      ensures ret == Some(Input) ==> nextIn == []
      ensures ret.Some? ==> ret.value == Input || ret.value == InvalidInput
      ensures st == old(st).(part32 := st.part32) && (!expr ==> st == old(st))
    {
      v, ret := 0, None;
      if expr {
        var r := DecodeInteger(st.part32, OFLOW32);
        match r {
          case Ok(n, _) => st := st.(part32 := 0); v := n;
          case Partial(p) => st := st.(part32 := p); ret := Some(Input);
          case Overflow => ret := Some(InvalidInput);
        }
      }
    }

    /** OFFSET_CASE. */
    method OffsetCase(expr: bool) returns (ret: Option<Code>, v: nat)
      requires Wants(st) == if expr then Offset else Skip
      modifies this`nextIn, this`st
      ensures One(old(st), old(nextIn)) ==
        if ret == Some(Input) then Blocked(st) else if ret.Some? then Failed(ret.value) else Done(st, v, nextIn)
      ensures ret == Some(Input) ==> nextIn == []
      ensures ret.Some? ==> ret.value == Input || ret.value == InvalidInput
      ensures st == old(st).(part64 := st.part64) && (!expr ==> st == old(st))
    {
      v, ret := 0, None;
      if expr {
        var r := DecodeInteger(st.part64, OFLOW64);
        match r {
          case Ok(n, _) => st := st.(part64 := 0); v := n;
          case Partial(p) => st := st.(part64 := p); ret := Some(Input);
          case Overflow => ret := Some(InvalidInput);
        }
      }
    }

    /** The cases of the switch, each up to the next one. */
    method VcHeadCase() returns (ret: Option<Code>)
      requires st.phase == VcHead
      modifies this
      ensures Did(old(st), old(nextIn), ret, st, nextIn)
      ensures old(Valid()) ==> Valid()
    {
      hide Did, Call, ReadFrom, Rank, One;
      ghost var s, input := st, nextIn;
      MagicTurn(s, input);
      var ok, magic := DecodeBytes(st.magic, 4);
      st := st.(magic := magic);
      if !ok {
        ret := Some(Input);
      } else if magic[0] != 0xd6 || magic[1] != 0xc3 || magic[2] != 0xc4 {
        ret := Some(InvalidInput);
      } else if magic[3] != 0 {
        ret := Some(InvalidInput);
      } else {
        st := st.(phase := HdrInd);
        ret := None;
      }
      CaseDid(s, input, ret, st, nextIn);
    }

    method HdrIndCase() returns (ret: Option<Code>)
      requires st.phase == HdrInd
      modifies this
      ensures Did(old(st), old(nextIn), ret, st, nextIn)
      ensures old(Valid()) ==> Valid()
    {
      hide Did;
      ghost var s, input := st, nextIn;
      var blocked, v := ByteCase(true);
      if blocked {
        ret := Some(Input);
      } else {
        st := st.(hdrInd := v);
        if OtherBits(v) {
          ret := Some(InvalidInput);
        } else {
          st := st.(phase := SecondId);
          ret := None;
        }
      }
      CaseDid(s, input, ret, st, nextIn);
    }

    method SecondIdCase() returns (ret: Option<Code>)
      requires st.phase == SecondId
      modifies this
      ensures Did(old(st), old(nextIn), ret, st, nextIn)
      ensures old(Valid()) ==> Valid()
    {
      hide Did;
      ghost var s, input := st, nextIn;
      var blocked, v := ByteCase(Bit0(st.hdrInd));
      if blocked {
        ret := Some(Input);
      } else {
        ret := None;
        if Bit0(st.hdrInd) {
          st := st.(secondId := v);
          match v {
            case 16 => ret := Some(Internal);
            case 1 => st := st.(secType := true);
            case 2 => ret := Some(Internal);
            case _ => ret := Some(InvalidInput);
          }
        }
        st := st.(phase := TabLen);
      }
      CaseDid(s, input, ret, st, nextIn);
    }

    method TabLenCase() returns (ret: Option<Code>)
      requires st.phase == TabLen
      modifies this
      ensures Did(old(st), old(nextIn), ret, st, nextIn)
      ensures old(Valid()) ==> Valid()
    {
      hide Did;
      ghost var s, input := st, nextIn;
      var v;
      ret, v := SizeCase(Bit1(st.hdrInd));
      if ret == None {
        if Bit1(st.hdrInd) {
          st := st.(codeTblSz := v);
          if st.codeTblSz <= 2 {
            ret := Some(NoMem);
          } else {
            st := st.(codeTblSz := st.codeTblSz - 2);
          }
        }
        st := st.(phase := Near);
      }
      CaseDid(s, input, ret, st, nextIn);
    }

    method NearCase() returns (ret: Option<Code>)
      requires st.phase == Near
      modifies this
      ensures Did(old(st), old(nextIn), ret, st, nextIn)
      ensures old(Valid()) ==> Valid()
    {
      hide Did;
      ghost var s, input := st, nextIn;
      var blocked, v := ByteCase(Bit1(st.hdrInd));
      if blocked {
        ret := Some(Input);
      } else {
        if Bit1(st.hdrInd) { st := st.(near := v); }
        st := st.(phase := Same);
        ret := None;
      }
      CaseDid(s, input, ret, st, nextIn);
    }

    method SameCase() returns (ret: Option<Code>)
      requires st.phase == Same
      modifies this
      ensures Did(old(st), old(nextIn), ret, st, nextIn)
      ensures old(Valid()) ==> Valid()
    {
      hide Did;
      ghost var s, input := st, nextIn;
      var blocked, v := ByteCase(Bit1(st.hdrInd));
      if blocked {
        ret := Some(Input);
      } else {
        if Bit1(st.hdrInd) { st := st.(same := v); }
        st := st.(phase := TabDat);
        ret := None;
      }
      CaseDid(s, input, ret, st, nextIn);
    }

    method TabDatCase() returns (ret: Option<Code>)
      requires st.phase == TabDat
      modifies this
      ensures Did(old(st), old(nextIn), ret, st, nextIn)
      ensures old(Valid()) ==> Valid()
    {
      hide Did;
      ghost var s, input := st, nextIn;
      if Bit1(st.hdrInd) {
        ret := Some(Unimplemented);
      } else {
        st := st.(near := 4, same := 3, phase := AppLen);
        ret := None;
      }
      CaseDid(s, input, ret, st, nextIn);
    }

    method AppLenCase() returns (ret: Option<Code>)
      requires st.phase == AppLen
      modifies this
      ensures Did(old(st), old(nextIn), ret, st, nextIn)
      ensures old(Valid()) ==> Valid()
    {
      hide Did;
      ghost var s, input := st, nextIn;
      var v;
      ret, v := SizeCase(Bit2(st.hdrInd));
      if ret == None {
        if Bit2(st.hdrInd) { st := st.(appHeadSz := v); }
        st := st.(phase := AppDat);
      }
      CaseDid(s, input, ret, st, nextIn);
    }

    method AppDatCase() returns (ret: Option<Code>)
      requires st.phase == AppDat
      modifies this
      ensures Did(old(st), old(nextIn), ret, st, nextIn)
      ensures old(Valid()) ==> Valid()
    {
      hide Did;
      ghost var s, input := st, nextIn;
      ret := None;
      if Bit2(st.hdrInd) {
        if SizeOverflow(st.appHeadSz, 1) {
          ret := Some(InvalidInput);
        } else {
          var ok, appHeader := DecodeBytes(st.appHeader, st.appHeadSz);
          st := st.(appHeader := appHeader);
          if !ok { ret := Some(Input); }
        }
      }
      if ret == None { st := st.(phase := WinInd); }
      CaseDid(s, input, ret, st, nextIn);
    }

    method WinIndCase() returns (ret: Option<Code>)
      requires st.phase == WinInd
      modifies this
      ensures Did(old(st), old(nextIn), ret, st, nextIn)
      ensures old(Valid()) ==> Valid()
    {
      hide Did;
      ghost var s, input := st, nextIn;
      var blocked, v := ByteCase(true);
      if blocked {
        ret := Some(Input);
      } else {
        st := st.(winInd := v);
        st := st.(currentWindow := st.windowCount);
        if st.winStart + st.tgtLen >= XOFF_LIMIT {
          ret := Some(InvalidInput);
        } else {
          st := st.(winStart := st.winStart + st.tgtLen);
          if OtherBits(v) {
            ret := Some(InvalidInput);
          } else {
            st := st.(cpyLen := 0, cpyOff := 0, cksum := []);
            st := st.(phase := CpyLen);
            ret := None;
          }
        }
      }
      CaseDid(s, input, ret, st, nextIn);
    }

    method CpyLenCase() returns (ret: Option<Code>)
      requires st.phase == CpyLen
      modifies this
      ensures Did(old(st), old(nextIn), ret, st, nextIn)
      ensures old(Valid()) ==> Valid()
    {
      hide Did;
      ghost var s, input := st, nextIn;
      var v;
      ret, v := SizeCase(SrcOrTgt(st.winInd));
      if ret == None {
        if SrcOrTgt(st.winInd) { st := st.(cpyLen := v); }
        st := st.(phase := CpyOff);
        st := st.(position := st.cpyLen);
      }
      CaseDid(s, input, ret, st, nextIn);
    }

    method CpyOffCase() returns (ret: Option<Code>)
      requires st.phase == CpyOff
      modifies this
      ensures Did(old(st), old(nextIn), ret, st, nextIn)
      ensures old(Valid()) ==> Valid()
    {
      hide Did;
      ghost var s, input := st, nextIn;
      var v;
      ret, v := OffsetCase(SrcOrTgt(st.winInd));
      if ret == None {
        if SrcOrTgt(st.winInd) { st := st.(cpyOff := v); }
        st := st.(phase := EncLen);
        if st.cpyOff + st.cpyLen >= XOFF_LIMIT {
          ret := Some(InvalidInput);
        } else if Bit1(st.winInd) && st.cpyOff + st.cpyLen > st.winStart {
          ret := Some(InvalidInput);
        }
      }
      CaseDid(s, input, ret, st, nextIn);
    }

    method EncLenCase() returns (ret: Option<Code>)
      requires st.phase == EncLen
      modifies this
      ensures Did(old(st), old(nextIn), ret, st, nextIn)
      ensures old(Valid()) ==> Valid()
    {
      hide Did;
      ghost var s, input := st, nextIn;
      var v;
      ret, v := SizeCase(true);
      if ret == None {
        st := st.(encLen := v, phase := TgtLen);
      }
      CaseDid(s, input, ret, st, nextIn);
    }

    method TgtLenCase() returns (ret: Option<Code>)
      requires st.phase == TgtLen
      modifies this
      ensures Did(old(st), old(nextIn), ret, st, nextIn)
      ensures old(Valid()) ==> Valid()
    {
      hide Did;
      ghost var s, input := st, nextIn;
      var v;
      ret, v := SizeCase(true);
      if ret == None {
        st := st.(tgtLen := v, phase := DelInd);
        if SizeOverflow(st.cpyLen, st.tgtLen) {
          ret := Some(InvalidInput);
        } else if st.tgtLen > XD3_HARDMAXWINSIZE {
          ret := Some(InvalidInput);
        } else {
          st := st.(maxPos := st.cpyLen + st.tgtLen);
        }
      }
      CaseDid(s, input, ret, st, nextIn);
    }

    method DelIndCase() returns (ret: Option<Code>)
      requires st.phase == DelInd
      modifies this
      ensures Did(old(st), old(nextIn), ret, st, nextIn)
      ensures old(Valid()) ==> Valid()
    {
      hide Did;
      ghost var s, input := st, nextIn;
      var blocked, v := ByteCase(true);
      if blocked {
        ret := Some(Input);
      } else {
        st := st.(delInd := v, phase := DataLen);
        ret := None;
        if OtherBits(st.delInd) {
          ret := Some(InvalidInput);
        } else if st.delInd != 0 && !st.secType {
          ret := Some(InvalidInput);
        }
      }
      CaseDid(s, input, ret, st, nextIn);
    }

    method DataLenCase() returns (ret: Option<Code>)
      requires st.phase == DataLen
      modifies this
      ensures Did(old(st), old(nextIn), ret, st, nextIn)
      ensures old(Valid()) ==> Valid()
    {
      hide Did;
      ghost var s, input := st, nextIn;
      var v;
      ret, v := SizeCase(true);
      if ret == None {
        st := st.(dataSize := v, phase := InstLen);
      }
      CaseDid(s, input, ret, st, nextIn);
    }

    method InstLenCase() returns (ret: Option<Code>)
      requires st.phase == InstLen
      modifies this
      ensures Did(old(st), old(nextIn), ret, st, nextIn)
      ensures old(Valid()) ==> Valid()
    {
      hide Did;
      ghost var s, input := st, nextIn;
      var v;
      ret, v := SizeCase(true);
      if ret == None {
        st := st.(instSize := v, phase := AddrLen);
      }
      CaseDid(s, input, ret, st, nextIn);
    }

    method AddrLenCase() returns (ret: Option<Code>)
      requires st.phase == AddrLen
      modifies this
      ensures Did(old(st), old(nextIn), ret, st, nextIn)
      ensures old(Valid()) ==> Valid()
    {
      hide Did;
      ghost var s, input := st, nextIn;
      var v;
      ret, v := SizeCase(true);
      if ret == None {
        st := st.(addrSize := v, phase := Cksum);
      }
      CaseDid(s, input, ret, st, nextIn);
    }

    method CksumCase() returns (ret: Option<Code>)
      requires st.phase == Cksum
      modifies this
      ensures Did(old(st), old(nextIn), ret, st, nextIn)
      ensures old(Valid()) ==> Valid()
    {
      hide Did, Word, One, EncLenCheck;
      ghost var s, input := st, nextIn;
      CksumTurn(s, input);
      ret := None;
      if Bit2(st.winInd) {
        var ok, cksum := DecodeBytes(st.cksum, 4);
        st := st.(cksum := cksum);
        if !ok {
          ret := Some(Input);
        } else {
          st := st.(adler32 := Word(st.cksum));
        }
      }
      if ret == None {
        SameCheck(s, st);
        var check := EncLenCheck(st);
        st := st.(phase := DataSect);
        if st.encLen != check {
          ret := Some(InvalidInput);
        } else {
          ret := Some(if st.currentWindow == 0 then GotHeader else WinStart);
        }
      }
      CaseDid(s, input, ret, st, nextIn);
    }

    method EmittingCase() returns (ret: Option<Code>)
      requires st.phase == Emitting
      ensures Did(st, nextIn, ret, st, nextIn) && ret == Some(Ready)
    {
      ret := Some(Ready);
      CaseDid(st, nextIn, ret, st, nextIn);
    }

    method FinishCase() returns (ret: Option<Code>)
      requires st.phase == Finish
      modifies this
      ensures Did(old(st), old(nextIn), ret, st, nextIn)
      ensures old(Valid()) ==> Valid()
    {
      hide Did;
      ghost var s, input := st, nextIn;
      st := st.(windowCount := st.windowCount + 1);
      st := st.(phase := WinInd);
      ret := Some(WinFinish);
      CaseDid(s, input, ret, st, nextIn);
    }

    /** `xd3_decode_section`: `pos` bytes of a section of `size` bytes are there.
        Without `copy` the whole section is at hand, and is not copied. */
    method DecodeSection(have: seq<byte>, size: nat, copy: bool) returns (ok: bool, buf: seq<byte>)
      requires |have| <= size && (!copy ==> size - |have| <= |nextIn|)
      modifies this`nextIn
      ensures var n := size - |have|;
        if n <= |old(nextIn)| then ok && buf == have + old(nextIn)[..n] && nextIn == old(nextIn)[n..]
        else !ok && buf == have + old(nextIn) && nextIn == []
    {
      buf := have;
      if |have| < size {
        if |nextIn| == 0 {
          return false, buf;
        }
        var take;
        if !copy && |have| == 0 {
          take := size;
          buf := nextIn[..size];
        } else {
          take := Min(size - |have|, |nextIn|);
          buf := buf + nextIn[..take];
        }
        nextIn := nextIn[take..];
      }
      ok := |buf| == size;
    }

    /** `xd3_decode_sections`, up to the secondary compressor. */
    method Sections() returns (ret: Option<Code>)
      requires Valid() && (st.phase == DataSect || st.phase == InstSect || st.phase == AddrSect)
      modifies this
      ensures Did(old(st), old(nextIn), ret, st, nextIn)
      ensures if ret == None || ret == Some(Input) then Valid() else ret == Some(Internal)
    {
      hide Did, Call;
      ghost var s, input := st, nextIn;
      if SectionsOverflow(st) {
        ret := Some(Internal);
        CaseDid(s, input, ret, st, nextIn);
        return;
      }
      var need := st.instSize + st.addrSize + st.dataSize;
      var more := need - WinBytes(st);
      var copy := Min(more, |nextIn|) != more;
      ret := None;
      if st.phase == DataSect {
        ret := DataSection(copy);
      }
      if ret == None && st.phase == InstSect {
        ghost var s1, input1 := st, nextIn;
        ret := InstSection(copy);
        DidThen(s, input, s1, input1, ret, st, nextIn);
      }
      if ret == None && st.phase == AddrSect {
        ghost var s1, input1 := st, nextIn;
        ret := AddrSection(copy);
        DidThen(s, input, s1, input1, ret, st, nextIn);
      }
    }

    method DataSection(copy: bool) returns (ret: Option<Code>)
      requires Valid() && st.phase == DataSect && !SectionsOverflow(st) && (!copy ==> Left(st) <= |nextIn|)
      modifies this
      ensures Did(old(st), old(nextIn), ret, st, nextIn) && Valid() && (ret == None || ret == Some(Input))
      ensures ret == None ==> st.phase == InstSect && !SectionsOverflow(st) && (!copy ==> Left(st) <= |nextIn|)
    {
      hide Did;
      ghost var s, input := st, nextIn;
      var ok, buf := DecodeSection(st.data, st.dataSize, copy);
      st := st.(data := buf);
      ret := if ok then None else Some(Input);
      if ok { st := st.(phase := InstSect); }
      CaseDid(s, input, ret, st, nextIn);
    }

    method InstSection(copy: bool) returns (ret: Option<Code>)
      requires Valid() && st.phase == InstSect && !SectionsOverflow(st) && (!copy ==> Left(st) <= |nextIn|)
      modifies this
      ensures Did(old(st), old(nextIn), ret, st, nextIn) && Valid() && (ret == None || ret == Some(Input))
      ensures ret == None ==> st.phase == AddrSect && !SectionsOverflow(st) && (!copy ==> Left(st) <= |nextIn|)
    {
      hide Did;
      ghost var s, input := st, nextIn;
      var ok, buf := DecodeSection(st.inst, st.instSize, copy);
      st := st.(inst := buf);
      ret := if ok then None else Some(Input);
      if ok { st := st.(phase := AddrSect); }
      CaseDid(s, input, ret, st, nextIn);
    }

    method AddrSection(copy: bool) returns (ret: Option<Code>)
      requires Valid() && st.phase == AddrSect && !SectionsOverflow(st) && (!copy ==> Left(st) <= |nextIn|)
      modifies this
      ensures Did(old(st), old(nextIn), ret, st, nextIn) && Valid() && (ret == None || ret == Some(Input))
      ensures ret == None ==> st.phase == Emitting
    {
      hide Did;
      ghost var s, input := st, nextIn;
      var ok, buf := DecodeSection(st.addr, st.addrSize, copy);
      st := st.(addr := buf);
      ret := if ok then None else Some(Input);
      if ok { st := st.(phase := Emitting); }
      CaseDid(s, input, ret, st, nextIn);
    }

    /** `xd3_decode_input`. */
    method DecodeInput() returns (code: Code)
      requires Valid()
      modifies this
      ensures Call(old(st), old(nextIn)) == if Broken(code) then Error(code) else Result(code, st, nextIn)
      ensures !Broken(code) ==> Valid()
    {
      hide Call, Did;
      while true
        invariant Valid() && Call(st, nextIn) == Call(old(st), old(nextIn))
        decreases |nextIn|, Rank(st.phase)
      {
        ghost var s, input := st, nextIn;
        var ret := Switch();
        WhatDid(s, input, ret, st, nextIn);
        if ret.Some? {
          return ret.value;
        }
      }
    }

    /** The switch. */
    method Switch() returns (ret: Option<Code>)
      requires Valid()
      modifies this
      ensures Did(old(st), old(nextIn), ret, st, nextIn)
      ensures ret == None || !Broken(ret.value) ==> Valid()
    {
      hide Did, Call, One;
      match st.phase {
        case VcHead => ret := VcHeadCase();
        case HdrInd => ret := HdrIndCase();
        case SecondId => ret := SecondIdCase();
        case TabLen => ret := TabLenCase();
        case Near => ret := NearCase();
        case Same => ret := SameCase();
        case TabDat => ret := TabDatCase();
        case AppLen => ret := AppLenCase();
        case AppDat => ret := AppDatCase();
        case WinInd => ret := WinIndCase();
        case CpyLen => ret := CpyLenCase();
        case CpyOff => ret := CpyOffCase();
        case EncLen => ret := EncLenCase();
        case TgtLen => ret := TgtLenCase();
        case DelInd => ret := DelIndCase();
        case DataLen => ret := DataLenCase();
        case InstLen => ret := InstLenCase();
        case AddrLen => ret := AddrLenCase();
        case Cksum => ret := CksumCase();
        case DataSect => ret := Sections();
        case InstSect => ret := Sections();
        case AddrSect => ret := Sections();
        case Emitting => ret := EmittingCase();
        case Finish => ret := FinishCase();
      }
    }
  }

  /** The bytes of the sections still to come. */
  function Left(s: Stream): int {
    s.instSize + s.addrSize + s.dataSize - WinBytes(s)
  }

  lemma DidThen(s: Stream, input: seq<byte>, s1: Stream, input1: seq<byte>, ret: Option<Code>, s2: Stream, input2: seq<byte>)
    requires (s1 == s && input1 == input) || Did(s, input, None, s1, input1)
    requires Did(s1, input1, ret, s2, input2)
    ensures Did(s, input, ret, s2, input2)
  {
    hide Call;
  }

  lemma WhatDid(s: Stream, input: seq<byte>, ret: Option<Code>, s': Stream, rest: seq<byte>)
    requires Did(s, input, ret, s', rest)
    ensures ret == None ==>
      Call(s', rest) == Call(s, input) && (|rest| < |input| || (|rest| == |input| && Rank(s'.phase) < Rank(s.phase)))
    ensures ret.Some? ==>
      Call(s, input) == if Broken(ret.value) then Error(ret.value) else Result(ret.value, s', rest)
  {
  }
}
