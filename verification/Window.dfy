/** Meaning of the three sections of a delta window (sections 4.3, 5 and 6 of
    RFC 3284): the decoder as a function, and how sections compose. */
module Window {
  import opened Bytes
  import opened Options
  import opened Varint
  import opened AddressCache
  import opened CodeTable
  import opened Delta

  /** The source file and the size of its blocks, the copy window
      `[cpyoff, cpyoff + cpylen)` announced by the window header, and the
      announced target length. */
  datatype Env = Env(S: seq<byte>, blksize: nat, cpyoff: nat, cpylen: nat, tgtlen: nat) {
    /** The header check: addresses of the window fit `usize_t`. */
    predicate Valid() {
      cpylen + tgtlen < USIZE_LIMIT && 0 < blksize
    }

    /** Every byte of the copy window can be found, its place added up in 32
        bits. The decoder does not check this. */
    predicate Placed()
      requires Valid()
    {
      cpyoff % blksize + cpylen <= USIZE_LIMIT
    }
  }

  /** One decoded half-instruction. */
  datatype Half = Half(kind: nat, size: nat, addr: nat)

  /** The half-instruction with its address resolved: below `cpylen` it names
      the source file, above it the window itself. */
  function Resolve(env: Env, h: Half, position: nat): WInst {
    if h.kind < CPY then WInst(h.kind, 0, h.size, 0, position)
    else if h.addr < env.cpylen then WInst(h.kind, VCD_SOURCE, h.size, env.cpyoff + h.addr, position)
    else WInst(h.kind, 0, h.size, h.addr - env.cpylen, position)
  }

  /** A half-instruction, the rest of INST and ADDR, the cache and the decoder
      position after it. */
  datatype Parsed = Parsed(h: Half, inst: seq<byte>, addr: seq<byte>, cache: Cache, pos: nat)

  predicate Coded(kind: nat) {
    ADD <= kind < CPY + CPY_MODES
  }

  /** The checks a parsed half-instruction has passed, read from `pos`. */
  predicate ParsedOk(env: Env, p: Parsed, kind: nat, pos: nat) {
    && p.pos == pos + p.h.size <= env.cpylen + env.tgtlen
    && p.h.kind == kind && (kind >= CPY ==> p.h.addr < pos)
    && (kind >= CPY && p.h.addr < env.cpylen ==> p.h.addr + p.h.size <= env.cpylen)
  }

  predicate CacheOk(c: Cache)
    ensures CacheOk(c) ==> c.Valid() && c.Modes() == CPY_MODES
  {
    |c.near| == NEAR_MODES && |c.same| == 256 * SAME_MODES && c.next < NEAR_MODES
    && (forall i | 0 <= i < |c.near| :: c.near[i] < USIZE_LIMIT)
    && (forall k | 0 <= k < |c.same| :: c.same[k] < USIZE_LIMIT)
  }

  /** `xd3_decode_parse_halfinst`. */
  function ParseHalf(env: Env, kind: nat, size: nat, inst: seq<byte>, addr: seq<byte>, c: Cache, pos: nat)
    : (r: Option<Parsed>)
    requires env.Valid() && Coded(kind) && CacheOk(c) && pos <= env.cpylen + env.tgtlen
    ensures r.Some? ==> CacheOk(r.value.cache) && |r.value.inst| <= |inst| && ParsedOk(env, r.value, kind, pos)
  {
    if size != 0 then ParseSized(env, kind, size, inst, addr, c, pos)
    else
      match ReadFrom(0, inst, OFLOW32)
      case Ok(v, rest) =>
        RestIsSuffix(0, inst, OFLOW32);
        ParseSized(env, kind, v, rest, addr, c, pos)
      case _ => None
  }

  /** The same once the size is known: the address and the bounds checks. */
  function ParseSized(env: Env, kind: nat, size: nat, inst: seq<byte>, addr: seq<byte>, c: Cache, pos: nat)
    : (r: Option<Parsed>)
    requires env.Valid() && Coded(kind) && CacheOk(c) && pos <= env.cpylen + env.tgtlen
    ensures r.Some? ==> CacheOk(r.value.cache) && r.value.inst == inst && ParsedOk(env, r.value, kind, pos)
                        && r.value.h.size == size
  {
    if kind >= CPY then
      match DecodeAddr(c, pos, kind - CPY, addr)
      case Bad => None
      case Ok(a, rest) =>
        if a >= pos then None
        else if a < env.cpylen && a + size > env.cpylen then None
        else if pos + size > env.cpylen + env.tgtlen then None
        else Some(Parsed(Half(kind, size, a), inst, rest, Update(c, a), pos + size))
    else if pos + size > env.cpylen + env.tgtlen then None
    else Some(Parsed(Half(kind, size, 0), inst, addr, c, pos + size))
  }

  /** How many DATA bytes a half-instruction takes. */
  function Used(h: Half): nat {
    if h.kind == RUN then 1 else if h.kind == ADD then h.size else 0
  }

  /** An empty source copy placed past the end of the file, on a block boundary,
      escapes the check for a short source: that block is empty, not short. */
  predicate EmptyPastEnd(env: Env, h: Half)
    requires env.Valid()
  {
    h.kind >= CPY && h.addr < env.cpylen && h.size == 0 && (env.cpyoff + h.addr) % env.blksize == 0
  }

  /** `xd3_decode_output_halfinst`, run until the half-instruction is done: what
      is left of DATA, and the output. */
  function Output(env: Env, h: Half, data: seq<byte>, out: seq<byte>): (r: Option<(seq<byte>, seq<byte>)>)
    requires env.Valid() && Coded(h.kind) && (h.kind >= CPY ==> h.addr < env.cpylen + |out|)
    ensures r.Some? ==> |r.value.1| == |out| + h.size
  {
    var w := Resolve(env, h, |out|);
    if Fits(w, |data|, |env.S|) then Some((data[Used(h)..], Execute(w, h.size, data, env.S, out)))
    else if EmptyPastEnd(env, h) then Some((data, out))
    else None
  }

  /** The decoder between two opcodes: what is left of each section, the cache
      and the window output. */
  datatype State = State(inst: seq<byte>, data: seq<byte>, addr: seq<byte>, cache: Cache, out: seq<byte>)

  predicate StateOk(env: Env, st: State) {
    env.Valid() && CacheOk(st.cache) && |st.out| <= env.tgtlen
  }

  /** One opcode. */
  function DecodeOne(env: Env, st: State): (r: Option<State>)
    requires StateOk(env, st) && st.inst != []
    ensures r.Some? ==> StateOk(env, r.value) && |r.value.inst| < |st.inst|
  {
    DecodeInst(env, Entry(st.inst[0]), State(st.inst[1..], st.data, st.addr, st.cache, st.out))
  }

  predicate TableEntry(d: DInst) {
    Coded(d.type1) && (d.type2 == NOOP || Coded(d.type2))
  }

  /** Parse the halves of a table entry, then output them. */
  function DecodeInst(env: Env, d: DInst, st: State): (r: Option<State>)
    requires StateOk(env, st) && TableEntry(d)
    ensures r.Some? ==> StateOk(env, r.value) && |r.value.inst| <= |st.inst|
  {
    var p1 :- ParseHalf(env, d.type1, d.size1, st.inst, st.addr, st.cache, env.cpylen + |st.out|);
    if d.type2 == NOOP then OutputOne(env, p1, st.data, st.out)
    else
      var p2 :- ParseHalf(env, d.type2, d.size2, p1.inst, p1.addr, p1.cache, p1.pos);
      OutputTwo(env, p1.h, p2, st.data, st.out)
  }

  function OutputOne(env: Env, p: Parsed, data: seq<byte>, out: seq<byte>): (r: Option<State>)
    requires env.Valid() && Coded(p.h.kind) && (p.h.kind >= CPY ==> p.h.addr < env.cpylen + |out|)
    ensures r.Some? ==> r.value.inst == p.inst && r.value.cache == p.cache && |r.value.out| == |out| + p.h.size
  {
    var o :- Output(env, p.h, data, out);
    Some(State(p.inst, o.0, p.addr, p.cache, o.1))
  }

  function OutputTwo(env: Env, h: Half, p: Parsed, data: seq<byte>, out: seq<byte>): (r: Option<State>)
    requires env.Valid() && Coded(h.kind) && (h.kind >= CPY ==> h.addr < env.cpylen + |out|)
    requires Coded(p.h.kind) && (p.h.kind >= CPY ==> p.h.addr < env.cpylen + |out| + h.size)
    ensures r.Some? ==> r.value.inst == p.inst && r.value.cache == p.cache
                        && |r.value.out| == |out| + h.size + p.h.size
  {
    var o :- Output(env, h, data, out);
    OutputOne(env, p, o.0, o.1)
  }

  /** Opcodes until the INST section is used up. */
  function Run(env: Env, st: State): (r: Option<State>)
    requires StateOk(env, st)
    ensures r.Some? ==> StateOk(env, r.value) && r.value.inst == []
    decreases |st.inst|
  {
    if st.inst == [] then Some(st)
    else
      var st' :- DecodeOne(env, st);
      Run(env, st')
  }

  /** The specification of `xd3_decode_emit`: the target window, if the sections
      fill it exactly and nothing is left over. */
  function Decode(env: Env, inst: seq<byte>, data: seq<byte>, addr: seq<byte>): Option<seq<byte>>
    requires env.Valid()
  {
    Finish(env, Run(env, State(inst, data, addr, Empty(NEAR_MODES, SAME_MODES), [])))
  }

  /** The checks at the end of a window. */
  function Finish(env: Env, st: Option<State>): Option<seq<byte>> {
    if st.Some? && |st.value.out| == env.tgtlen && st.value.data == [] && st.value.addr == [] then Some(st.value.out)
    else None
  }

  // The decoder in the middle of an opcode: up to two halves still to output.

  const NONE := Half(NOOP, 0, 0)

  /** What is known of a half-instruction waiting to be output; NOOP is none. */
  predicate Waiting(env: Env, h: Half, outlen: nat) {
    h.kind == NOOP || (
      && Coded(h.kind) && outlen + h.size <= env.tgtlen
      && (h.kind >= CPY ==> h.addr < env.cpylen + outlen)
      && (h.kind >= CPY && h.addr < env.cpylen ==> h.addr + h.size <= env.cpylen))
  }

  function SizeLeft(h: Half): nat {
    if h.kind == NOOP then 0 else h.size
  }

  function OutputLeft(env: Env, h: Half, data: seq<byte>, out: seq<byte>): (r: Option<(seq<byte>, seq<byte>)>)
    requires env.Valid() && Waiting(env, h, |out|)
    ensures r.Some? ==> |r.value.1| == |out| + SizeLeft(h)
  {
    if h.kind == NOOP then Some((data, out)) else Output(env, h, data, out)
  }

  /** The result of the window from the middle of an opcode on. */
  function Rest(env: Env, h1: Half, h2: Half, st: State): Option<seq<byte>>
    requires StateOk(env, st) && Waiting(env, h1, |st.out|) && Waiting(env, h2, |st.out| + SizeLeft(h1))
  {
    var o1 :- OutputLeft(env, h1, st.data, st.out);
    var o2 :- OutputLeft(env, h2, o1.0, o1.1);
    Finish(env, Run(env, st.(data := o2.0, out := o2.1)))
  }

  lemma UpdateOk(c: Cache, addr: nat)
    requires CacheOk(c) && addr < USIZE_LIMIT
    ensures CacheOk(Update(c, addr))
  {
  }

  /** Carrying out part or all of the first waiting half keeps the result. */
  lemma RestFirst(env: Env, h1: Half, h2: Half, st: State, left: Half, data: seq<byte>, out: seq<byte>)
    requires StateOk(env, st) && Waiting(env, h1, |st.out|) && Waiting(env, h2, |st.out| + SizeLeft(h1))
    requires Waiting(env, left, |out|) && |out| + SizeLeft(left) == |st.out| + SizeLeft(h1) && |out| <= env.tgtlen
    requires OutputLeft(env, left, data, out) == OutputLeft(env, h1, st.data, st.out)
    ensures Rest(env, left, h2, st.(data := data, out := out)) == Rest(env, h1, h2, st)
  {
    hide Output, CacheOk, Run;
  }

  lemma RestSecond(env: Env, h1: Half, h2: Half, st: State, left: Half, data: seq<byte>, out: seq<byte>)
    requires StateOk(env, st) && h1.kind == NOOP && Waiting(env, h2, |st.out|)
    requires Waiting(env, left, |out|) && |out| + SizeLeft(left) == |st.out| + SizeLeft(h2) && |out| <= env.tgtlen
    requires OutputLeft(env, left, data, out) == OutputLeft(env, h2, st.data, st.out)
    ensures Rest(env, h1, left, st.(data := data, out := out)) == Rest(env, h1, h2, st)
  {
    hide Output, CacheOk, Run;
  }

  lemma RestFails(env: Env, h1: Half, h2: Half, st: State)
    requires StateOk(env, st) && Waiting(env, h1, |st.out|) && Waiting(env, h2, |st.out| + SizeLeft(h1))
    requires OutputLeft(env, h1, st.data, st.out) == None
             || (h1.kind == NOOP && OutputLeft(env, h2, st.data, st.out) == None)
    ensures Rest(env, h1, h2, st) == None
  {
    hide Output, CacheOk, Run;
  }

  lemma RestDone(env: Env, h1: Half, h2: Half, st: State)
    requires StateOk(env, st) && h1.kind == NOOP && h2.kind == NOOP && st.inst == []
    ensures Rest(env, h1, h2, st) == Finish(env, Some(st))
  {
  }

  /** Taking an opcode apart and parsing it does not change the result to come;
      an opcode that does not parse makes the window fail. */
  lemma RestStep(env: Env, n1: Half, n2: Half, st: State)
    requires StateOk(env, st) && st.inst != [] && n1.kind == NOOP && n2.kind == NOOP
    ensures var e := Entry(st.inst[0]);
      var p := ParseHalf(env, e.type1, e.size1, st.inst[1..], st.addr, st.cache, env.cpylen + |st.out|);
      var r := Rest(env, n1, n2, st);
      match p
      case None => r == None
      case Some(p1) =>
        if e.type2 == NOOP then
          r == Rest(env, p1.h, NONE, State(p1.inst, st.data, p1.addr, p1.cache, st.out))
        else
          match ParseHalf(env, e.type2, e.size2, p1.inst, p1.addr, p1.cache, p1.pos)
          case None => r == None
          case Some(p2) => r == Rest(env, p1.h, p2.h, State(p2.inst, st.data, p2.addr, p2.cache, st.out))
  {
    hide ParseHalf, Output, Entry, CacheOk;
  }

  // What follows in a section does not matter to what comes before it.

  lemma {:induction false} ExecuteExtends(w: WInst, n: nat, adds: seq<byte>, more: seq<byte>, S: seq<byte>, T: seq<byte>)
    requires Fits(w, |adds|, |S|) && n <= w.size && w.position == |T|
    ensures Execute(w, n, adds + more, S, T) == Execute(w, n, adds, S, T)
  {
    if n != 0 {
      ExecuteExtends(w, n - 1, adds, more, S, T);
    }
  }

  lemma ParseExtends(env: Env, kind: nat, size: nat, inst: seq<byte>, addr: seq<byte>, c: Cache, pos: nat,
                     i2: seq<byte>, a2: seq<byte>)
    requires env.Valid() && Coded(kind) && CacheOk(c) && pos <= env.cpylen + env.tgtlen
    requires ParseHalf(env, kind, size, inst, addr, c, pos).Some?
    ensures var p := ParseHalf(env, kind, size, inst, addr, c, pos).value;
      ParseHalf(env, kind, size, inst + i2, addr + a2, c, pos) == Some(p.(inst := p.inst + i2, addr := p.addr + a2))
  {
    ReadResumes(0, inst, i2, OFLOW32);
    if kind >= CPY {
      DecodeExtends(c, pos, kind - CPY, addr, a2);
    }
  }

  lemma OutputExtends(env: Env, h: Half, data: seq<byte>, out: seq<byte>, d2: seq<byte>)
    requires env.Valid() && Coded(h.kind) && (h.kind >= CPY ==> h.addr < env.cpylen + |out|)
    requires Output(env, h, data, out).Some?
    ensures var o := Output(env, h, data, out).value; Output(env, h, data + d2, out) == Some((o.0 + d2, o.1))
  {
    var w := Resolve(env, h, |out|);
    if Fits(w, |data|, |env.S|) {
      ExecuteExtends(w, h.size, data, d2, env.S, out);
    }
    assert (data + d2)[Used(h)..] == data[Used(h)..] + d2;
  }

  function Extend(st: State, i2: seq<byte>, d2: seq<byte>, a2: seq<byte>): State {
    State(st.inst + i2, st.data + d2, st.addr + a2, st.cache, st.out)
  }

  lemma OutputTwoExtends(env: Env, h: Half, p: Parsed, data: seq<byte>, out: seq<byte>,
                         i2: seq<byte>, d2: seq<byte>, a2: seq<byte>)
    requires env.Valid() && Coded(h.kind) && (h.kind >= CPY ==> h.addr < env.cpylen + |out|)
    requires Coded(p.h.kind) && (p.h.kind >= CPY ==> p.h.addr < env.cpylen + |out| + h.size)
    requires OutputTwo(env, h, p, data, out).Some?
    ensures OutputTwo(env, h, p.(inst := p.inst + i2, addr := p.addr + a2), data + d2, out)
         == Some(Extend(OutputTwo(env, h, p, data, out).value, i2, d2, a2))
  {
    OutputExtends(env, h, data, out, d2);
    var o := Output(env, h, data, out).value;
    OutputExtends(env, p.h, o.0, o.1, d2);
  }

  lemma InstExtends(env: Env, d: DInst, st: State, i2: seq<byte>, d2: seq<byte>, a2: seq<byte>)
    requires StateOk(env, st) && TableEntry(d) && DecodeInst(env, d, st).Some?
    ensures DecodeInst(env, d, Extend(st, i2, d2, a2)) == Some(Extend(DecodeInst(env, d, st).value, i2, d2, a2))
  {
    hide ParseHalf, Output;
    var pos := env.cpylen + |st.out|;
    ParseExtends(env, d.type1, d.size1, st.inst, st.addr, st.cache, pos, i2, a2);
    var p1 := ParseHalf(env, d.type1, d.size1, st.inst, st.addr, st.cache, pos).value;
    if d.type2 == NOOP {
      OutputExtends(env, p1.h, st.data, st.out, d2);
    } else {
      ParseExtends(env, d.type2, d.size2, p1.inst, p1.addr, p1.cache, p1.pos, i2, a2);
      var p2 := ParseHalf(env, d.type2, d.size2, p1.inst, p1.addr, p1.cache, p1.pos).value;
      OutputTwoExtends(env, p1.h, p2, st.data, st.out, i2, d2, a2);
    }
  }

  lemma OneExtends(env: Env, st: State, i2: seq<byte>, d2: seq<byte>, a2: seq<byte>)
    requires StateOk(env, st) && st.inst != [] && DecodeOne(env, st).Some?
    ensures DecodeOne(env, Extend(st, i2, d2, a2)) == Some(Extend(DecodeOne(env, st).value, i2, d2, a2))
  {
    hide DecodeInst, Entry, CacheOk;
    assert (st.inst + i2)[1..] == st.inst[1..] + i2;
    InstExtends(env, Entry(st.inst[0]), State(st.inst[1..], st.data, st.addr, st.cache, st.out), i2, d2, a2);
  }

  /** Sections written one after the other decode one after the other. */
  lemma {:induction false} RunAppend(env: Env, st: State, i2: seq<byte>, d2: seq<byte>, a2: seq<byte>)
    requires StateOk(env, st) && Run(env, st).Some?
    ensures Run(env, Extend(st, i2, d2, a2)) == Run(env, Extend(Run(env, st).value, i2, d2, a2))
    decreases |st.inst|
  {
    if st.inst != [] {
      OneExtends(env, st, i2, d2, a2);
      RunAppend(env, DecodeOne(env, st).value, i2, d2, a2);
    }
  }

  // What one opcode written by the encoder does.

  /** A half-instruction of known size takes exactly the bytes `a` and `d`,
      turning cache and output `(c0, o0)` into `(c1, o1)`. */
  ghost predicate HalfDone(env: Env, kind: nat, size: nat, a: seq<byte>, d: seq<byte>,
                           c0: Cache, o0: seq<byte>, c1: Cache, o1: seq<byte>)
  {
    && env.Valid() && Coded(kind) && 0 < size && CacheOk(c0) && |o0| <= env.tgtlen
    && var p := ParseSized(env, kind, size, [], a, c0, env.cpylen + |o0|);
    && p.Some? && p.value.addr == [] && p.value.cache == c1
    && Output(env, p.value.h, d, o0) == Some(([], o1))
  }

  lemma HalfDoneBounds(env: Env, kind: nat, size: nat, a: seq<byte>, d: seq<byte>,
                       c0: Cache, o0: seq<byte>, c1: Cache, o1: seq<byte>)
    requires HalfDone(env, kind, size, a, d, c0, o0, c1, o1)
    ensures env.Valid() && Coded(kind) && 0 < size < USIZE_LIMIT && CacheOk(c0) && CacheOk(c1)
    ensures |o0| + size == |o1| <= env.tgtlen
  {
  }

  /** The bytes of `xd3_emit_single`. */
  function Single(kind: nat, size: nat): seq<byte>
    requires Coded(kind)
  {
    var code := Code1(kind, size);
    [code] + if Entry(code).size1 == 0 then Emit(size) else []
  }

  lemma SingleDecodes(env: Env, kind: nat, size: nat, a: seq<byte>, d: seq<byte>,
                      c0: Cache, o0: seq<byte>, c1: Cache, o1: seq<byte>)
    requires HalfDone(env, kind, size, a, d, c0, o0, c1, o1)
    ensures Run(env, State(Single(kind, size), d, a, c0, o0)) == Some(State([], [], [], c1, o1))
  {
    hide ParseSized, Output, Entry, Code1, CacheOk;
    var e := Entry(Code1(kind, size));
    var tail := if e.size1 == 0 then Emit(size) else [];
    assert Single(kind, size)[1..] == tail;
    RoundTrip(size, [], OFLOW32);
    assert Emit(size) + [] == Emit(size);
    assert DecodeInst(env, e, State(tail, d, a, c0, o0)) == Some(State([], [], [], c1, o1));
  }

  lemma DoubleDecodes(env: Env, code: byte, a1: seq<byte>, d1: seq<byte>, a2: seq<byte>, d2: seq<byte>,
                      c0: Cache, o0: seq<byte>, c1: Cache, o1: seq<byte>, c2: Cache, o2: seq<byte>)
    requires var e := Entry(code);
      && HalfDone(env, e.type1, e.size1, a1, d1, c0, o0, c1, o1)
      && HalfDone(env, e.type2, e.size2, a2, d2, c1, o1, c2, o2)
    ensures Run(env, State([code], d1 + d2, a1 + a2, c0, o0)) == Some(State([], [], [], c2, o2))
  {
    assert [code][1..] == [];
    PairDecodes(env, Entry(code), a1, d1, a2, d2, c0, o0, c1, o1, c2, o2);
  }

  lemma PairDecodes(env: Env, e: DInst, a1: seq<byte>, d1: seq<byte>, a2: seq<byte>, d2: seq<byte>,
                    c0: Cache, o0: seq<byte>, c1: Cache, o1: seq<byte>, c2: Cache, o2: seq<byte>)
    requires HalfDone(env, e.type1, e.size1, a1, d1, c0, o0, c1, o1)
    requires HalfDone(env, e.type2, e.size2, a2, d2, c1, o1, c2, o2)
    ensures DecodeInst(env, e, State([], d1 + d2, a1 + a2, c0, o0)) == Some(State([], [], [], c2, o2))
  {
    hide ParseSized, Output;
    var p1 := ParseSized(env, e.type1, e.size1, [], a1, c0, env.cpylen + |o0|).value;
    var p2 := ParseSized(env, e.type2, e.size2, [], a2, c1, env.cpylen + |o1|).value;
    assert [] + a2 == a2 && [] + d2 == d2;
    ParseExtends(env, e.type1, e.size1, [], a1, c0, env.cpylen + |o0|, [], a2);
    assert ParseHalf(env, e.type1, e.size1, [], a1 + a2, c0, env.cpylen + |o0|) == Some(p1.(addr := a2));
    OutputExtends(env, p1.h, d1, o0, d2);
    assert OutputTwo(env, p1.h, p2, d1 + d2, o0) == Some(State([], [], [], c2, o2));
  }

  /** An instruction that shows the bytes of `T` extends a prefix of `T`. */
  lemma {:induction false} ExecuteReproduces(w: WInst, n: nat, adds: seq<byte>, S: seq<byte>, T: seq<byte>)
    requires Fits(w, |adds|, |S|) && n <= w.size && w.position + w.size <= |T|
    requires forall k: nat | k < w.size :: Shows(w, k, adds, S, T)
    ensures Execute(w, n, adds, S, T[..w.position]) == T[..w.position + n]
  {
    if n != 0 {
      ExecuteReproduces(w, n - 1, adds, S, T);
      assert Shows(w, n - 1, adds, S, T);
    }
  }
}
