/** Sections of a window through the secondary compressor. */
module Secondary {
  import opened Bytes
  import opened Varint
  import opened BitIO
  import opened HuffmanGroups
  import opened GroupsCodec

  const SECONDARY_MIN_INPUT := 10
  const SECONDARY_MIN_SAVINGS := 2

  /** What a compressed section stands for. */
  datatype Section = Data(bytes: seq<byte>) | Unusable

  predicate AllBytes(s: seq<nat>) {
    forall k | 0 <= k < |s| :: s[k] < 256
  }

  /** The specification of `xd3_decode_secondary`: a size and that many symbols,
      with nothing behind them but bits of the last byte. */
  ghost function Decompress(sect: seq<byte>): Section {
    match ReadFrom(0, sect, OFLOW32)
    case Ok(n, rest) => Symbols(Unpack(rest), n)
    case Partial(_) => Unusable
    case Overflow => Unusable
  }

  ghost function Symbols(b: seq<bool>, n: nat): Section {
    var d := ReadHuff(b, n);
    if d.Values? && |d.rest| < 8 && AllBytes(d.vals) then Data(d.vals) else Unusable
  }

  method DecodeSecondary(sect: seq<byte>) returns (r: Section)
    ensures r == Decompress(sect)
  {
    hide ReadFrom, ReadHuff, Unpack;
    var ok, n, next := ReadInteger(sect, 0, OFLOW32);
    assert sect[0..] == sect;
    if !ok {
      return Unusable;
    }
    var d, used := DecodeHuff(sect[next..], n);
    match d
    case InvalidInput => r := Unusable;
    case Bytes(bytes) =>
      r := if used == |sect| - next then Data(bytes) else Unusable;
  }

  /** Whether a section is replaced: it is long enough, the compressor does not give
      up, and that saves enough or does not matter. `t` is what the compressor
      writes. */
  ghost predicate Replaced(t: Trace, plan: Plan, sect: seq<byte>, inefficient: bool)
    requires PlanOk(plan, sect) && Planned(t, plan, sect)
  {
    && |sect| >= SECONDARY_MIN_INPUT && (inefficient || !SaveLittle(t, plan, sect, SizeOf(|sect|)))
    && TraceOk(t, sect) && (inefficient || SizeOf(|sect|) + HuffSize(t, sect) < |sect| - SECONDARY_MIN_SAVINGS)
  }

  /** A section is replaced exactly if that saves enough; what replaces it is as long
      as the codes say and decompresses to it if the groups are alike. */
  method EncodeSecondary(sect: seq<byte>, inefficient: bool, plan: Plan) returns (did: bool, out: seq<byte>, ghost t: Trace)
    requires |sect| < USIZE_LIMIT && PlanOk(plan, sect)
    ensures |sect| >= SECONDARY_MIN_INPUT ==> Planned(t, plan, sect)
    ensures did <==> |sect| >= SECONDARY_MIN_INPUT && Replaced(t, plan, sect, inefficient)
    ensures if did then |out| == SizeOf(|sect|) + HuffSize(t, sect) else out == sect
    ensures did && Alike(plan, sect) ==> Decompress(out) == Data(sect)
    ensures did ==> inefficient || |out| < |sect| - SECONDARY_MIN_SAVINGS
    ensures inefficient && |sect| >= SECONDARY_MIN_INPUT ==> did
  {
    hide Emit, ReadFrom, Decompress, Decodes, Planned, Alike, SaveLittle, TraceOk, HuffSize;
    did, out, t := false, sect, One([], []);
    if |sect| >= SECONDARY_MIN_INPUT {
      var size := EmitInteger(|sect|);
      EmitSize(|sect|);
      var e;
      e, t := EncodeHuff(sect, inefficient, |size|, plan);
      if e.Output? && (|size| + |e.bytes| < |sect| - SECONDARY_MIN_SAVINGS || inefficient) {
        did, out := true, size + e.bytes;
        if Alike(plan, sect) {
          assert Decodes(e.bytes, [], sect);
          Decompresses(sect, e.bytes);
        }
      }
    }
  }

  lemma Decompresses(sect: seq<byte>, bytes: seq<byte>)
    requires |sect| < USIZE_LIMIT && Decodes(bytes, [], sect)
    ensures Decompress(Emit(|sect|) + bytes) == Data(sect)
  {
    hide Unpack, Emit, ReadFrom, ReadHuff;
    Varint.RoundTrip(|sect|, bytes, OFLOW32);
    assert bytes + [] == bytes;
  }
}
