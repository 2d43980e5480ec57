/** Writing a window: the optimised instructions, with ADDs for the gaps, go out
    through a one-instruction lookahead to the three sections. */
module Encoder {
  import opened Bytes
  import opened Options
  import opened Varint
  import opened AddressCache
  import opened CodeTable
  import opened Delta
  import opened Window
  import opened Iopt

  /** How the sections divide while one instruction is held back in `iout`: its
      DATA and ADDR bytes are already written, its opcode is not. */
  datatype Held = Held(d0: seq<byte>, a0: seq<byte>, d: seq<byte>, a: seq<byte>, c0: Cache, o0: seq<byte>)

  function Start(inst: seq<byte>, data: seq<byte>, addr: seq<byte>): State {
    State(inst, data, addr, Empty(NEAR_MODES, SAME_MODES), [])
  }

  /** What is written so far decodes to the input up to `off`, and the decoder's
      cache is then the encoder's. */
  ghost predicate Written(env: Env, input: seq<byte>, inst: seq<byte>, data: seq<byte>, addr: seq<byte>,
                          c: Cache, iout: Option<RInst>, off: nat, g: Held)
  {
    && env.Valid() && env.tgtlen == |input| && off <= |input| && CacheOk(c)
    && data == g.d0 + g.d && addr == g.a0 + g.a
    && Run(env, Start(inst, g.d0, g.a0)) == Some(State([], [], [], g.c0, g.o0))
    && match iout
       case None => g.d == [] && g.a == [] && c == g.c0 && g.o0 == input[..off]
       case Some(r) => HalfDone(env, r.kind, r.size, g.a, g.d, g.c0, g.o0, c, input[..off])
  }

  lemma WrittenBounds(env: Env, input: seq<byte>, inst: seq<byte>, data: seq<byte>, addr: seq<byte>,
                      c: Cache, iout: Option<RInst>, off: nat, g: Held)
    requires Written(env, input, inst, data, addr, c, iout, off, g)
    ensures env.Valid() && env.tgtlen == |input| && off <= |input| && CacheOk(c)
    ensures iout.Some? ==> Coded(iout.value.kind) && 0 < iout.value.size < USIZE_LIMIT
  {
  }

  lemma StartWritten(env: Env, input: seq<byte>)
    requires env.Valid() && env.tgtlen == |input|
    ensures var c := Empty(NEAR_MODES, SAME_MODES);
      Written(env, input, [], [], [], c, None, 0, Held([], [], [], [], c, []))
  {
  }

  /** The held instruction goes out with an opcode of its own. */
  lemma SingleWritten(env: Env, input: seq<byte>, inst: seq<byte>, data: seq<byte>, addr: seq<byte>,
                      c: Cache, r: RInst, off: nat, g: Held)
    requires Written(env, input, inst, data, addr, c, Some(r), off, g)
    ensures Written(env, input, inst + Single(r.kind, r.size), data, addr, c, None, off,
                    Held(data, addr, [], [], c, input[..off]))
  {
    hide HalfDone, Single, Run;
    HalfDoneBounds(env, r.kind, r.size, g.a, g.d, g.c0, g.o0, c, input[..off]);
    var code := Single(r.kind, r.size);
    var st := Start(inst, g.d0, g.a0);
    SingleDecodes(env, r.kind, r.size, g.a, g.d, g.c0, g.o0, c, input[..off]);
    RunAppend(env, st, code, g.d, g.a);
    assert Extend(Run(env, st).value, code, g.d, g.a) == State(code, g.d, g.a, g.c0, g.o0);
    assert Extend(st, code, g.d, g.a) == Start(inst + code, data, addr);
  }

  /** The next instruction is held back. */
  lemma HeldWritten(env: Env, input: seq<byte>, inst: seq<byte>, data: seq<byte>, addr: seq<byte>,
                    c: Cache, off: nat, g: Held, r: RInst, a: seq<byte>, d: seq<byte>, c': Cache)
    requires Written(env, input, inst, data, addr, c, None, off, g) && off + r.size <= |input|
    requires HalfDone(env, r.kind, r.size, a, d, c, input[..off], c', input[..off + r.size])
    ensures Written(env, input, inst, data + d, addr + a, c', Some(r), off + r.size,
                    Held(data, addr, d, a, c, input[..off]))
  {
    hide HalfDone, CacheOk;
    HalfDoneBounds(env, r.kind, r.size, a, d, c, input[..off], c', input[..off + r.size]);
    assert g.d0 + [] == g.d0 && g.a0 + [] == g.a0;
  }

  /** The held instruction and the next one go out with one opcode. */
  lemma DoubleWritten(env: Env, input: seq<byte>, inst: seq<byte>, data: seq<byte>, addr: seq<byte>,
                      c: Cache, r: RInst, off: nat, g: Held,
                      code: byte, kind: nat, size: nat, a: seq<byte>, d: seq<byte>, c': Cache)
    requires Written(env, input, inst, data, addr, c, Some(r), off, g) && off + size <= |input|
    requires HalfDone(env, kind, size, a, d, c, input[..off], c', input[..off + size])
    requires Entry(code) == DInst(r.kind, r.size, kind, size)
    ensures Written(env, input, inst + [code], data + d, addr + a, c', None, off + size,
                    Held(data + d, addr + a, [], [], c', input[..off + size]))
  {
    hide HalfDone, Entry, Run;
    HalfDoneBounds(env, r.kind, r.size, g.a, g.d, g.c0, g.o0, c, input[..off]);
    HalfDoneBounds(env, kind, size, a, d, c, input[..off], c', input[..off + size]);
    var st := Start(inst, g.d0, g.a0);
    DoubleDecodes(env, code, g.a, g.d, a, d, g.c0, g.o0, c, input[..off], c', input[..off + size]);
    RunAppend(env, st, [code], g.d + d, g.a + a);
    assert Extend(Run(env, st).value, [code], g.d + d, g.a + a) == State([code], g.d + d, g.a + a, g.c0, g.o0);
    assert Extend(st, [code], g.d + d, g.a + a) == Start(inst + [code], data + d, addr + a);
  }

  /** The address a copy carries in its window. */
  function WindowAddr(env: Env, r: RInst): int {
    if r.xtra != 0 then r.addr - env.cpyoff else env.cpylen + r.addr
  }

  /** A valid instruction, written, is a half-instruction the decoder takes to
      its end. */
  lemma CopyDone(env: Env, input: seq<byte>, r: RInst, c: Cache, mode: nat, a: seq<byte>)
    requires env.Valid() && env.tgtlen == |input| && CacheOk(c)
    requires Reproduces(env, input, r) && r.kind == CPY
    requires Encodes(c, r.pos + env.cpylen, WindowAddr(env, r), mode, a)
    ensures CacheOk(Update(c, WindowAddr(env, r)))
    ensures HalfDone(env, CPY + mode, r.size, a, [], c, input[..r.pos], Update(c, WindowAddr(env, r)), input[..End(r)])
  {
    hide ParseSized, CacheOk, Update, DecodeAddr;
    var h := Half(CPY + mode, r.size, WindowAddr(env, r));
    ParsedAs(env, h, a, c, r.pos);
    CopyOutputs(env, input, r, h);
  }

  lemma CopyOutputs(env: Env, input: seq<byte>, r: RInst, h: Half)
    requires env.Valid() && env.tgtlen == |input| && Reproduces(env, input, r) && r.kind == CPY
    requires Coded(h.kind) && h.kind >= CPY && h.size == r.size && h.addr == WindowAddr(env, r)
    ensures Output(env, h, [], input[..r.pos]) == Some(([], input[..End(r)]))
  {
    var w := Resolve(env, h, r.pos);
    forall k: nat | k < w.size ensures Shows(w, k, [], env.S, input) {
      assert if r.xtra != 0 then SameAt(input, r.pos, env.S, r.addr, k) else SameAt(input, r.pos, input, r.addr, k);
    }
    ExecuteReproduces(w, w.size, [], env.S, input);
  }

  lemma ParsedAs(env: Env, h: Half, a: seq<byte>, c: Cache, pos: nat)
    requires env.Valid() && CacheOk(c) && h.kind >= CPY && Encodes(c, pos + env.cpylen, h.addr, h.kind - CPY, a)
    requires pos + h.size <= env.tgtlen && h.addr < pos + env.cpylen
    requires h.addr < env.cpylen ==> h.addr + h.size <= env.cpylen
    ensures Coded(h.kind) && CacheOk(Update(c, h.addr))
    ensures ParseSized(env, h.kind, h.size, [], a, c, env.cpylen + pos)
         == Some(Parsed(h, [], [], Update(c, h.addr), env.cpylen + pos + h.size))
  {
  }

  lemma LiteralDone(env: Env, input: seq<byte>, r: RInst, c: Cache)
    requires env.Valid() && env.tgtlen == |input| && CacheOk(c)
    requires Reproduces(env, input, r) && r.kind in {ADD, RUN}
    ensures HalfDone(env, r.kind, r.size, [], if r.kind == RUN then [r.xtra] else input[r.pos..End(r)],
                     c, input[..r.pos], c, input[..End(r)])
  {
    var d := if r.kind == RUN then [r.xtra] else input[r.pos..End(r)];
    var w := Resolve(env, Half(r.kind, r.size, 0), r.pos);
    forall k: nat | k < w.size ensures Shows(w, k, d, env.S, input) {
      assert r.kind == RUN ==> RunAt(input, r.pos, r.xtra, k);
    }
    ExecuteReproduces(w, w.size, d, env.S, input);
    assert d[Used(Half(r.kind, r.size, 0))..] == [];
  }

  /** A finished window decodes to the input, all sections used up. */
  lemma Finished(env: Env, input: seq<byte>, inst: seq<byte>, data: seq<byte>, addr: seq<byte>, c: Cache, g: Held)
    requires Written(env, input, inst, data, addr, c, None, |input|, g)
    ensures Decode(env, inst, data, addr) == Some(input)
  {
    assert g.d0 + [] == g.d0 && g.a0 + [] == g.a0;
    assert input[..|input|] == input;
  }

  /** The instruction fields of `xd3_stream` while a window is encoded. `input`
      is `next_in[0..avail_in]`; the copy window of `env` is the decided source
      window (`srcbase`, `srclen`), so `taroff` is `cpylen`. */
  class WindowEncoder {
    const env: Env
    const input: seq<byte>
    const acache: AddrCache
    const ioptSize: nat
    var ioptUsed: seq<RInst>
    var iout: Option<RInst>
    var unencoded: nat
    var inst: seq<byte>
    var data: seq<byte>
    var addr: seq<byte>
    ghost var held: Held
    /** The instructions encoded so far. */
    ghost var log: seq<RInst>
    /** The same with the address modes of the copies. */
    ghost var coded: seq<RInst>

    ghost const Repr: set<object>

    ghost predicate Valid()
      reads this, Repr
    {
      && Repr == {this, acache, acache.nearArray, acache.sameArray}
      && acache.Valid() && acache.View().Hashed()
      && Written(env, input, inst, data, addr, acache.View(), iout, unencoded, held)
    }

    /** The buffered matches, all at or after what is already encoded. */
    ghost predicate Buffered()
      reads this
    {
      ListOk(ioptUsed) && AllReproduce(env, input, ioptUsed) && From(ioptUsed, unencoded)
    }

    /** The sections, with what is still held back, take at most twelve bytes for each
        byte of input: opcode, size, address and the byte itself. */
    ghost predicate Slim()
      reads this
    {
      |inst| + |data| + |addr| + (if iout.Some? then 6 else 0) <= 12 * unencoded
    }

    /** DATA holds the literals of what has been encoded, and nothing else; INST has its
        opcodes, two instructions sharing one wherever the table allows it. */
    ghost predicate Logged()
      reads this
    {
      data == Lits(input, log) && Recoded(log, coded) && Paired(coded, inst, iout)
    }

    /** The same at the end of a window. */
    ghost predicate Complete()
      reads this
    {
      data == Lits(input, log) && Recoded(log, coded) && Opcodes(coded, inst)
    }

    lemma LoggedIs()
      ensures Logged() <==> data == Lits(input, log) && Recoded(log, coded) && Paired(coded, inst, iout)
    {
    }

    lemma CompleteIs()
      ensures Complete() <==> data == Lits(input, log) && Recoded(log, coded) && Opcodes(coded, inst)
    {
    }

    lemma SlimIs()
      requires Slim()
      ensures |inst| + |data| + |addr| <= 12 * unencoded
    {
    }

    constructor (e: Env, target: seq<byte>, size: nat)
      requires e.Valid() && e.tgtlen == |target|
      ensures Valid() && fresh(Repr) && env == e && input == target && ioptSize == size
      ensures ioptUsed == [] && unencoded == 0 && log == [] && Slim() && Logged()
    {
      env, input, ioptSize := e, target, size;
      ioptUsed, iout, unencoded := [], None, 0;
      inst, data, addr, log, coded := [], [], [], [], [];
      var cache := new AddrCache(NEAR_MODES, SAME_MODES);
      acache := cache;
      held := Held([], [], [], [], Empty(NEAR_MODES, SAME_MODES), []);
      Repr := {this, cache, cache.nearArray, cache.sameArray};
      new;
      StartWritten(env, input);
    }

    /** `xd3_emit_single`. */
    method EmitSingle(r: RInst, code: byte)
      requires Coded(r.kind) && code == Code1(r.kind, r.size) && r.size < USIZE_LIMIT
      modifies this`inst
      ensures inst == old(inst) + Single(r.kind, r.size) && |inst| <= |old(inst)| + 6
    {
      inst := inst + [code];
      if Entry(code).size1 == 0 {
        var size := EmitInteger(r.size);
        EmitSize(r.size);
        inst := inst + size;
      }
    }

    /** `xd3_iopt_finish_encoding`: literals go to DATA, the address of a copy to
        ADDR. */
    method FinishEncoding(r: RInst) returns (ghost mode: nat)
      requires Valid() && Reproduces(env, input, r) && r.pos == unencoded
      modifies Repr
      ensures Valid() && unencoded == End(r) && ioptUsed == old(ioptUsed) && log == old(log) + [r]
      ensures (old(Slim()) ==> Slim()) && (old(Logged()) ==> Logged())
      ensures data == old(data) + Literals(input, r)
      ensures if r.kind == CPY then AddressWritten(env, old(acache.View()), r, mode, old(addr), addr) else addr == old(addr)
      ensures Chosen(old(iout), Moded(r, mode), old(inst), iout, inst)
    {
      hide Written, HalfDone, CacheOk, Encodes, Shortest, Chosen, Lits, Logged, Recoded, Paired, AddressWritten, Literals;
      LoggedIs();
      WrittenBounds(env, input, inst, data, addr, acache.View(), iout, unencoded, held);
      ghost var c, d0, a0, inst0, p := acache.View(), data, addr, inst, iout;
      var rinst;
      ghost var a, d;
      rinst, mode, a, d := EmitOperand(r);
      LitsMore(input, log, r);
      RecodedMore(log, coded, r, mode);
      unencoded := unencoded + r.size;
      log := log + [r];
      Dispatch(rinst, c, d0, a0, a, d);
      if old(Logged()) { PairedMore(coded, rinst, inst0, p, inst, iout); }
      coded := coded + [rinst];
      LoggedIs();
    }

    /** Its beginning: the operand is written. */
    method EmitOperand(r: RInst) returns (rinst: RInst, ghost mode: nat, ghost a: seq<byte>, ghost d: seq<byte>)
      requires Valid() && Reproduces(env, input, r) && r.pos == unencoded
      modifies this`data, this`addr, acache, acache.nearArray, acache.sameArray
      ensures acache.Valid() && acache.View().Hashed() && rinst == Moded(r, mode) && End(r) <= |input|
      ensures HalfDone(env, rinst.kind, r.size, a, d, old(acache.View()), input[..r.pos], acache.View(), input[..End(r)])
      ensures data == old(data) + d && addr == old(addr) + a && d == Literals(input, r) && |a| + |d| + 6 <= 12 * r.size
      ensures if r.kind == CPY then AddressWritten(env, old(acache.View()), r, mode, old(addr), addr) else addr == old(addr)
    {
      hide Written, HalfDone, CacheOk, Encodes, Shortest, Update;
      ghost var c := acache.View();
      WrittenBounds(env, input, inst, data, addr, c, iout, unencoded, held);
      rinst, mode, a, d := r, 0, [], [];
      if r.kind == CPY {
        var m, bytes := acache.EncodeAddress(WindowAddr(env, r), r.pos + env.cpylen);
        CopyDone(env, input, r, c, m, bytes);
        assert AddressWritten(env, c, r, m, addr, addr + bytes);
        addr := addr + bytes;
        rinst := r.(kind := CPY + m);
        a, mode := bytes, m;
        assert data + [] == data;
      } else {
        LiteralDone(env, input, r, c);
        d := if r.kind == RUN then [r.xtra] else input[r.pos..End(r)];
        assert addr + [] == addr;
        if r.kind == RUN {
          data := data + [r.xtra];
        } else {
          data := data + input[r.pos..End(r)];
        }
      }
    }

    /** The end of `xd3_iopt_finish_encoding`: choose the codes and emit. */
    method Dispatch(r: RInst, ghost c: Cache, ghost d0: seq<byte>, ghost a0: seq<byte>, ghost a: seq<byte>, ghost d: seq<byte>)
      requires Repr == {this, acache, acache.nearArray, acache.sameArray}
      requires acache.Valid() && acache.View().Hashed() && End(r) == unencoded <= |input|
      requires Written(env, input, inst, d0, a0, c, iout, r.pos, held)
      requires HalfDone(env, r.kind, r.size, a, d, c, input[..r.pos], acache.View(), input[..End(r)])
      requires data == d0 + d && addr == a0 + a
      modifies this`inst, this`iout, this`held
      ensures Valid()
      ensures |inst| + (if iout.Some? then 6 else 0) <= |old(inst)| + (if old(iout).Some? then 6 else 0) + 6
      ensures Chosen(old(iout), r, old(inst), iout, inst)
    {
      hide Written, HalfDone, CacheOk, Single;
      WrittenBounds(env, input, inst, d0, a0, c, iout, r.pos, held);
      HalfDoneBounds(env, r.kind, r.size, a, d, c, input[..r.pos], acache.View(), input[..End(r)]);
      if iout.Some? {
        var p := iout.value;
        var code2 := Code2(p.kind, p.size, r.kind, r.size);
        if code2 != 0 {
          DoubleWritten(env, input, inst, d0, a0, c, p, r.pos, held, code2, r.kind, r.size, a, d, acache.View());
          inst := inst + [code2];
          iout := None;
          held := Held(data, addr, [], [], acache.View(), input[..End(r)]);
          return;
        }
        SingleWritten(env, input, inst, d0, a0, c, p, r.pos, held);
        EmitSingle(p, Code1(p.kind, p.size));
        held := Held(d0, a0, [], [], c, input[..r.pos]);
      }
      HeldWritten(env, input, inst, d0, a0, c, r.pos, held, r, a, d, acache.View());
      iout := Some(r);
      held := Held(d0, a0, d, a, c, input[..r.pos]);
    }

    /** `xd3_iopt_add`: an ADD for the gap before `pos`, if there is one. */
    method Add(pos: nat)
      requires Valid() && unencoded <= pos <= |input|
      modifies Repr
      ensures Valid() && unencoded == pos && ioptUsed == old(ioptUsed)
      ensures (old(Slim()) ==> Slim()) && (old(Logged()) ==> Logged())
      ensures log == old(log) + Gap(old(unencoded), pos)
    {
      hide Written;
      if pos > unencoded {
        ghost var _ := FinishEncoding(RInst(ADD, 0, unencoded, pos - unencoded, 0));
      }
    }

    /** `xd3_iopt_add_encoding`. */
    method AddEncoding(r: RInst)
      requires Valid() && Reproduces(env, input, r) && unencoded <= r.pos
      modifies Repr
      ensures Valid() && unencoded == End(r) && ioptUsed == old(ioptUsed)
      ensures (old(Slim()) ==> Slim()) && (old(Logged()) ==> Logged())
      ensures log == old(log) + (Gap(old(unencoded), r.pos) + [r])
    {
      hide Written;
      Add(r.pos);
      ghost var _ := FinishEncoding(r);
    }

    /** `xd3_iopt_add_finalize`: afterwards the sections are a complete window
        that decodes to the input. */
    method AddFinalize()
      requires Valid()
      modifies Repr
      ensures Valid() && unencoded == |input| && iout == None && ioptUsed == old(ioptUsed)
      ensures (old(Slim()) ==> Slim()) && (old(Logged()) ==> Complete())
      ensures Decode(env, inst, data, addr) == Some(input)
      ensures log == old(log) + Gap(old(unencoded), |input|)
    {
      hide Written, Logged, Complete, Lits, Recoded, Paired, Opcodes, Gap, Decode, Single;
      WrittenBounds(env, input, inst, data, addr, acache.View(), iout, unencoded, held);
      Add(|input|);
      LoggedIs();
      ghost var inst0, p0 := inst, iout;
      WrittenBounds(env, input, inst, data, addr, acache.View(), iout, unencoded, held);
      if iout.Some? {
        var p := iout.value;
        SingleWritten(env, input, inst, data, addr, acache.View(), p, unencoded, held);
        EmitSingle(p, Code1(p.kind, p.size));
        held := Held(data, addr, [], [], acache.View(), input[..unencoded]);
        iout := None;
      }
      Finished(env, input, inst, data, addr, acache.View(), held);
      if old(Logged()) {
        LastOpcode(coded, inst0, p0, inst);
        CompleteIs();
      }
    }

    /** The compaction loop of `xd3_iopt_flush_instructions`. */
    method CompactBuffer(force: bool)
      requires ListOk(ioptUsed)
      modifies this`ioptUsed
      ensures ioptUsed == Compact(old(ioptUsed), 0, force)
    {
      ioptUsed := CompactList(ioptUsed, force);
    }

    /** `xd3_iopt_flush_instructions`: the first `n` survivors of compaction are
        encoded, with ADDs for the gaps before them. A forced flush encodes all.
        A partial flush leaves a buffer that can be flushed later exactly when
        compaction did not leave just two overlapping instructions. */
    method FlushInstructions(force: bool) returns (ghost n: nat)
      requires Valid() && Buffered()
      modifies Repr
      ensures Valid()
      ensures var c := Compact(old(ioptUsed), 0, force);
        && n == Flushed(|c|, ioptSize, force) <= |c| && ioptUsed == c[n..]
        && log == old(log) + Filled(c, n, old(unencoded))
        && unencoded == (if n == 0 then old(unencoded) else End(c[n - 1]))
      ensures var c := Compact(old(ioptUsed), 0, force);
        Buffered() <==> force || !(|c| == 2 && !Apart(c[0], c[1]))
    {
      hide Written, Reproduces, Compact;
      CompactOk(env, input, ioptUsed, 0, force, unencoded);
      CompactBuffer(force);
      ghost var c := ioptUsed;
      n := EncodeFront(force);
      if n > 0 { RestFrom(c, n, force); }
    }

    /** Encode the buffer from the front. */
    method EncodeFront(force: bool) returns (ghost n: nat)
      requires Valid() && ListOk(ioptUsed) && AllReproduce(env, input, ioptUsed) && From(ioptUsed, unencoded)
      requires Disjoint(ioptUsed, if force || ioptUsed == [] then |ioptUsed| else |ioptUsed| - 1)
      modifies Repr
      ensures Valid()
      ensures var c := old(ioptUsed);
        && n == Flushed(|c|, ioptSize, force) <= |c| && ioptUsed == c[n..]
        && log == old(log) + Filled(c, n, old(unencoded))
        && unencoded == (if n == 0 then old(unencoded) else End(c[n - 1]))
    {
      hide Written, Reproduces, Filled, Gap, Disjoint, From, ListOk;
      ghost var c, from, log0 := ioptUsed, unencoded, log;
      FilledStart(c, from);
      var flushed := 0;
      n := 0;
      while ioptUsed != []
        invariant 0 <= n <= |c| && ioptUsed == c[n..] && Valid() && flushed == (if force then 0 else n)
        invariant unencoded == (if n == 0 then from else End(c[n - 1])) && log == log0 + Filled(c, n, from)
        invariant force || n == 0 || (|c| >= n + 3 && n <= ioptSize / 2)
        decreases |ioptUsed|
      {
        var renc := ioptUsed[0];
        ioptUsed := ioptUsed[1..];
        FilledNext(c, n, from, force);
        assert Reproduces(env, input, c[n]);
        AddEncoding(renc);
        n := n + 1;
        if !force {
          flushed := flushed + 1;
          if flushed > ioptSize / 2 { break; }
          if |ioptUsed| < 3 { break; }
        }
      }
    }

    /** Encode instructions that do not overlap. */
    method EncodeList(l: seq<RInst>)
      requires Valid() && AllReproduce(env, input, l) && Disjoint(l, |l|) && From(l, unencoded)
      modifies Repr
      ensures Valid() && ioptUsed == old(ioptUsed)
      ensures (old(Slim()) ==> Slim()) && (old(Logged()) ==> Logged())
      ensures unencoded == (if l == [] then old(unencoded) else End(l[|l| - 1]))
      ensures log == old(log) + Filled(l, |l|, old(unencoded))
    {
      hide Written, Reproduces, Filled, Gap;
      ghost var from, log0 := unencoded, log;
      FilledStart(l, from);
      for n := 0 to |l|
        invariant Valid() && ioptUsed == old(ioptUsed) && (old(Slim()) ==> Slim()) && (old(Logged()) ==> Logged())
        invariant unencoded == (if n == 0 then from else End(l[n - 1])) && log == log0 + Filled(l, n, from)
      {
        if n > 0 { assert Apart(l[n - 1], l[n]); }
        FilledMore(l, n, from);
        assert Reproduces(env, input, l[n]);
        AddEncoding(l[n]);
      }
    }

    /** The end of a window in `xd3_encode_input`: forced flush, then the final
        ADD. Whatever valid matches were buffered, overlapping or not, the three
        sections decode to the input with nothing left over. What was encoded are
        the survivors of compaction, and ADDs for the gaps. */
    method EncodeWindow()
      requires Valid() && Buffered()
      modifies Repr
      ensures Decode(env, inst, data, addr) == Some(input)
      ensures var c := Compact(old(ioptUsed), 0, true); var from := old(unencoded);
        log == old(log) + Filled(c, |c|, from) + Gap(if c == [] then from else End(c[|c| - 1]), |input|)
    {
      hide Written, Compact, Filled, Gap, Valid, Decode;
      ghost var _ := FlushInstructions(true);
      AddFinalize();
    }
  }

  /** After an instruction held back comes another: one opcode for both if the table has
      one, else that of the first, and the second is held back. */
  ghost predicate Chosen(p: Option<RInst>, r: RInst, inst: seq<byte>, p': Option<RInst>, inst': seq<byte>) {
    && Coded(r.kind) && (p.Some? ==> Coded(p.value.kind) && 0 < p.value.size)
    && var c := if p.Some? then Code2(p.value.kind, p.value.size, r.kind, r.size) else 0;
      if c != 0 then p' == None && inst' == inst + [c]
      else p' == Some(r) && inst' == inst + if p.Some? then Single(p.value.kind, p.value.size) else []
  }

  /** A copy with its address mode. */
  function Moded(r: RInst, mode: nat): RInst {
    if r.kind == CPY then r.(kind := CPY + mode) else r
  }

  ghost predicate Recoded(l: seq<RInst>, coded: seq<RInst>) {
    |coded| == |l| && forall i | 0 <= i < |l| ::
      if l[i].kind == CPY then coded[i].kind >= CPY && coded[i].(kind := CPY) == l[i] else coded[i] == l[i]
  }

  lemma RecodedMore(l: seq<RInst>, coded: seq<RInst>, r: RInst, mode: nat)
    ensures Recoded(l, coded) ==> Recoded(l + [r], coded + [Moded(r, mode)])
  {
  }

  /** `inst` holds the opcodes of a list of instructions but for the one held back. */
  ghost predicate Paired(l: seq<RInst>, inst: seq<byte>, p: Option<RInst>) {
    if l == [] then inst == [] && p == None
    else
      var before, r := l[..|l| - 1], l[|l| - 1];
      exists inst0, p0 :: Paired(before, inst0, p0) && Chosen(p0, r, inst0, p, inst)
  }

  lemma PairedMore(l: seq<RInst>, r: RInst, inst0: seq<byte>, p0: Option<RInst>, inst: seq<byte>, p: Option<RInst>)
    requires Paired(l, inst0, p0) && Chosen(p0, r, inst0, p, inst)
    ensures Paired(l + [r], inst, p)
  {
    hide Chosen;
    var more := l + [r];
    var before := more[..|more| - 1];
    assert before == l && more[|more| - 1] == r;
    assert Paired(before, inst0, p0);
  }

  /** `inst` holds all the opcodes. */
  ghost predicate Opcodes(l: seq<RInst>, inst: seq<byte>) {
    exists inst0, p :: Paired(l, inst0, p) && LastAlone(inst0, p, inst)
  }

  ghost predicate LastAlone(inst0: seq<byte>, p: Option<RInst>, inst: seq<byte>) {
    (p.Some? ==> Coded(p.value.kind)) && inst == inst0 + if p.Some? then Single(p.value.kind, p.value.size) else []
  }

  lemma LastOpcode(l: seq<RInst>, inst0: seq<byte>, p: Option<RInst>, inst: seq<byte>)
    requires Paired(l, inst0, p) && (p.Some? ==> Coded(p.value.kind))
    requires if p.Some? then inst == inst0 + Single(p.value.kind, p.value.size) else inst == inst0
    ensures Opcodes(l, inst)
  {
    hide Single, Paired;
    assert inst0 + [] == inst0;
    assert LastAlone(inst0, p, inst);
  }

  /** ADDR grew by the address of a copy, in a mode of the cache that takes fewest
      bytes. */
  ghost predicate AddressWritten(env: Env, c: Cache, r: RInst, mode: nat, addr: seq<byte>, addr': seq<byte>) {
    && addr <= addr' && WindowAddr(env, r) >= 0
    && Encodes(c, r.pos + env.cpylen, WindowAddr(env, r), mode, addr'[|addr|..])
    && Shortest(c, r.pos + env.cpylen, WindowAddr(env, r), addr'[|addr|..])
  }

  /** The DATA bytes of an instruction. */
  function Literals(input: seq<byte>, r: RInst): seq<byte>
    requires r.kind == ADD ==> End(r) <= |input|
  {
    if r.kind == RUN then [r.xtra] else if r.kind == ADD then input[r.pos..End(r)] else []
  }

  /** The literals of a list of instructions. */
  function Lits(input: seq<byte>, l: seq<RInst>): seq<byte> {
    if l == [] then []
    else
      var r := l[|l| - 1];
      Lits(input, l[..|l| - 1])
      + if r.kind == RUN then [r.xtra] else if r.kind == ADD && End(r) <= |input| then input[r.pos..End(r)] else []
  }

  lemma LitsMore(input: seq<byte>, l: seq<RInst>, r: RInst)
    requires r.kind == ADD ==> End(r) <= |input|
    ensures Lits(input, l + [r]) == Lits(input, l) + Literals(input, r)
  {
    assert (l + [r])[..|l|] == l;
  }

  /** An ADD for a gap. */
  function Gap(from: nat, to: nat): seq<RInst> {
    if from < to then [RInst(ADD, 0, from, to - from, 0)] else []
  }

  /** The first `n` instructions, with the gaps from `from` on filled. */
  function Filled(c: seq<RInst>, n: nat, from: nat): seq<RInst>
    requires n <= |c|
  {
    if n == 0 then []
    else Filled(c, n - 1, from) + (Gap(if n == 1 then from else End(c[n - 2]), c[n - 1].pos) + [c[n - 1]])
  }

  lemma FilledStart(c: seq<RInst>, from: nat)
    ensures Filled(c, 0, from) == []
  {
  }

  lemma FilledMore(c: seq<RInst>, n: nat, from: nat)
    requires n < |c|
    ensures Filled(c, n + 1, from)
         == Filled(c, n, from) + (Gap(if n == 0 then from else End(c[n - 1]), c[n].pos) + [c[n]])
  {
  }

  lemma FilledNext(c: seq<RInst>, n: nat, from: nat, force: bool)
    requires ListOk(c) && n < |c| && From(c, from) && Disjoint(c, if force || c == [] then |c| else |c| - 1)
    requires force || n == 0 || |c| >= n + 3
    ensures (if n == 0 then from else End(c[n - 1])) <= c[n].pos
    ensures Filled(c, n + 1, from)
         == Filled(c, n, from) + (Gap(if n == 0 then from else End(c[n - 1]), c[n].pos) + [c[n]])
  {
    if n > 0 { assert Apart(c[n - 1], c[n]); }
  }

  /** The instructions from `from` on, each beginning where the last one ended. */
  ghost predicate Seamless(l: seq<RInst>, from: nat, to: nat) {
    if l == [] then from == to
    else End(l[|l| - 1]) == to && 0 < l[|l| - 1].size && Seamless(l[..|l| - 1], from, l[|l| - 1].pos)
  }

  lemma SeamlessMore(l: seq<RInst>, from: nat, mid: nat, to: nat)
    requires Seamless(l, from, mid) && mid <= to
    ensures Seamless(l + Gap(mid, to), from, to)
  {
    if mid < to {
      assert (l + Gap(mid, to))[..|l|] == l;
    } else {
      assert l + [] == l;
    }
  }

  /** Survivors that do not overlap, with their gaps filled, cover the input
      exactly. */
  lemma {:induction false} FilledSeamless(c: seq<RInst>, n: nat, from: nat)
    requires n <= |c| && Disjoint(c, n) && From(c, from) && forall i | 0 <= i < n :: 0 < c[i].size
    ensures Seamless(Filled(c, n, from), from, if n == 0 then from else End(c[n - 1]))
  {
    if n > 0 {
      FilledSeamless(c, n - 1, from);
      var before, mid := Filled(c, n - 1, from), if n == 1 then from else End(c[n - 2]);
      assert n > 1 ==> Apart(c[n - 2], c[n - 1]);
      SeamlessMore(before, from, mid, c[n - 1].pos);
      var l := before + Gap(mid, c[n - 1].pos);
      assert Filled(c, n, from) == l + [c[n - 1]];
      assert (l + [c[n - 1]])[..|l|] == l;
    }
  }

  /** The whole window: instructions with all gaps filled. */
  function Whole(c: seq<RInst>, n: nat): seq<RInst> {
    Filled(c, |c|, 0) + Gap(if c == [] then 0 else End(c[|c| - 1]), n)
  }

  /** Every instruction is there, in order, and all others are ADDs for gaps. */
  lemma {:induction false} FilledHas(c: seq<RInst>, n: nat, from: nat)
    requires n <= |c|
    ensures forall i | 0 <= i < n :: c[i] in Filled(c, n, from)
    ensures forall r | r in Filled(c, n, from) :: r.kind == ADD || r in c[..n]
  {
    if n > 0 {
      FilledHas(c, n - 1, from);
      var f, g := Filled(c, n - 1, from), Gap(if n == 1 then from else End(c[n - 2]), c[n - 1].pos);
      assert Filled(c, n, from) == f + g + [c[n - 1]];
      assert c[..n] == c[..n - 1] + [c[n - 1]];
    }
  }

  /** Filling gaps in two parts. */
  lemma {:induction false} FilledAppend(a: seq<RInst>, b: seq<RInst>, n: nat, from: nat)
    requires n <= |b|
    ensures Filled(a + b, |a| + n, from)
         == Filled(a, |a|, from) + Filled(b, n, if a == [] then from else End(a[|a| - 1]))
  {
    hide Filled, Gap;
    var l, mid := a + b, if a == [] then from else End(a[|a| - 1]);
    if n == 0 {
      FilledPart(a, b, |a|, from);
      FilledStart(b, mid);
    } else {
      FilledAppend(a, b, n - 1, from);
      var k := |a| + n - 1;
      FilledMore(l, k, from);
      FilledMore(b, n - 1, mid);
      assert l[k] == b[n - 1];
      assert (if k == 0 then from else End(l[k - 1])) == if n == 1 then mid else End(b[n - 2]);
    }
  }

  lemma {:induction false} FilledPart(a: seq<RInst>, b: seq<RInst>, n: nat, from: nat)
    requires n <= |a|
    ensures Filled(a + b, n, from) == Filled(a, n, from)
  {
    hide Gap;
    if n > 0 { FilledPart(a, b, n - 1, from); }
  }

  /** The bytes that instructions write. */
  function Sizes(l: seq<RInst>): nat {
    if l == [] then 0 else Sizes(l[..|l| - 1]) + l[|l| - 1].size
  }

  /** The DATA bytes they take: one for a run. */
  function Extra(l: seq<RInst>): nat {
    if l == [] then 0
    else Extra(l[..|l| - 1]) + if l[|l| - 1].kind == RUN then 1 else if l[|l| - 1].kind == ADD then l[|l| - 1].size else 0
  }

  lemma LitsSize(input: seq<byte>, l: seq<RInst>, r: RInst)
    requires r.kind == ADD ==> End(r) <= |input|
    ensures |Lits(input, l + [r])| == |Lits(input, l)| + if r.kind == RUN then 1 else if r.kind == ADD then r.size else 0
  {
    LitsMore(input, l, r);
  }

  lemma LitsGap(input: seq<byte>, l: seq<RInst>, from: nat, to: nat)
    requires from <= to <= |input|
    ensures |Lits(input, l + Gap(from, to))| == |Lits(input, l)| + (to - from)
  {
    if from < to {
      LitsSize(input, l, RInst(ADD, 0, from, to - from, 0));
    } else {
      assert l + [] == l;
    }
  }

  lemma {:induction false} FilledLits(input: seq<byte>, c: seq<RInst>, n: nat, from: nat)
    requires n <= |c| && Disjoint(c, n) && From(c, from) && from <= |input| && forall i | 0 <= i < n :: End(c[i]) <= |input|
    ensures Sizes(c[..n]) <= (if n == 0 then from else End(c[n - 1])) - from
    ensures |Lits(input, Filled(c, n, from))| == (if n == 0 then from else End(c[n - 1])) - from - Sizes(c[..n]) + Extra(c[..n])
  {
    hide Lits, Gap;
    if n == 0 {
      NoLits(input);
    } else {
      FilledLits(input, c, n - 1, from);
      var f, mid := Filled(c, n - 1, from), if n == 1 then from else End(c[n - 2]);
      assert n > 1 ==> Apart(c[n - 2], c[n - 1]);
      var g := Gap(mid, c[n - 1].pos);
      LitsGap(input, f, mid, c[n - 1].pos);
      LitsSize(input, f + g, c[n - 1]);
      assert Filled(c, n, from) == (f + g) + [c[n - 1]];
      assert c[..n][..n - 1] == c[..n - 1];
    }
  }

  lemma NoLits(input: seq<byte>)
    ensures Lits(input, []) == []
  {
  }

  /** DATA has one byte for each byte of input that no instruction but an ADD covers,
      and one for each run. */
  lemma DataSize(input: seq<byte>, c: seq<RInst>)
    requires Disjoint(c, |c|) && forall i | 0 <= i < |c| :: End(c[i]) <= |input|
    ensures Sizes(c) <= |input| && |Lits(input, Whole(c, |input|))| == |input| - Sizes(c) + Extra(c)
  {
    hide Lits, Gap, Sizes, Extra, Filled;
    FilledLits(input, c, |c|, 0);
    assert c[..|c|] == c;
    LitsGap(input, Filled(c, |c|, 0), if c == [] then 0 else End(c[|c| - 1]), |input|);
  }

  /** What goes out for a list of instructions: each of them, in order, and ADDs for the
      gaps, from the start of the window to its end. DATA has the bytes that no run and
      no copy covers. */
  ghost predicate AllOut(input: seq<byte>, l: seq<RInst>, log: seq<RInst>, data: seq<byte>) {
    && log == Whole(l, |input|) && Seamless(log, 0, |input|)
    && (forall i | 0 <= i < |l| :: l[i] in log) && (forall r | r in log :: r.kind == ADD || r in l)
    && data == Lits(input, log) && Sizes(l) <= |input| && |data| == |input| - Sizes(l) + Extra(l)
  }

  lemma WholeOut(env: Env, input: seq<byte>, l: seq<RInst>)
    requires AllReproduce(env, input, l) && Disjoint(l, |l|)
    ensures AllOut(input, l, Whole(l, |input|), Lits(input, Whole(l, |input|)))
  {
    hide Filled, Gap, Sizes, Extra, Lits, Disjoint, Seamless;
    EndsIn(env, input, l);
    DataSize(input, l);
    FilledSeamless(l, |l|, 0);
    FilledHas(l, |l|, 0);
    var f, last := Filled(l, |l|, 0), if l == [] then 0 else End(l[|l| - 1]);
    SeamlessMore(f, 0, last, |input|);
    assert l[..|l|] == l;
    GapAdds(last, |input|);
  }

  lemma EndsIn(env: Env, input: seq<byte>, l: seq<RInst>)
    requires AllReproduce(env, input, l)
    ensures forall i | 0 <= i < |l| :: End(l[i]) <= |input| && 0 < l[i].size
    ensures From(l, 0)
  {
    hide Same;
    forall i | 0 <= i < |l| ensures End(l[i]) <= |input| && 0 < l[i].size { assert Reproduces(env, input, l[i]); }
  }

  lemma GapAdds(from: nat, to: nat)
    ensures forall r | r in Gap(from, to) :: r.kind == ADD
  {
  }

  /** Two lists, the second behind the first. */
  lemma WholeJoined(env: Env, input: seq<byte>, a: seq<RInst>, b: seq<RInst>)
    requires AllReproduce(env, input, a) && Disjoint(a, |a|) && AllReproduce(env, input, b) && Disjoint(b, |b|)
    requires From(b, if a == [] then 0 else End(a[|a| - 1]))
    ensures AllReproduce(env, input, a + b) && Disjoint(a + b, |a + b|)
    ensures var mid := if a == [] then 0 else End(a[|a| - 1]);
      Whole(a + b, |input|) == Filled(a, |a|, 0) + Filled(b, |b|, mid) + Gap(if b == [] then mid else End(b[|b| - 1]), |input|)
  {
    hide Filled, Gap, Reproduces;
    FilledAppend(a, b, |b|, 0);
    var l := a + b;
    forall i, j | 0 <= i < j < |l| ensures Apart(l[i], l[j]) {
      if i < |a| <= j {
        assert i < |a| - 1 ==> Apart(a[i], a[|a| - 1]);
      }
    }
  }

  lemma {:induction false} DisjointCover(l: seq<RInst>, k: nat)
    requires k <= |l| && Disjoint(l, |l|)
    ensures Cover(l, k) == Sizes(l[..k])
  {
    if k > 0 {
      DisjointCover(l, k - 1);
      assert l[..k][..k - 1] == l[..k - 1];
      assert k > 1 ==> Apart(l[k - 2], l[k - 1]);
    }
  }

  /** The DATA of a window whose matches are `l`: besides runs, at most the bytes that no
      match covers, and three for each that compaction drops. */
  lemma DataBound(env: Env, input: seq<byte>, l: seq<RInst>)
    requires ListOk(l) && AllReproduce(env, input, l) && Progress(l, 0)
    ensures var c := Compact(l, 0, true);
      |c| <= |l| && |Lits(input, Whole(c, |input|))| <= |input| - Cover(l, |l|) + 3 * (|l| - |c|) + Extra(c)
  {
    hide Compact, Reproduces, Whole, Lits, Sizes, Cover, Extra, ListOk;
    CompactOk(env, input, l, 0, true, 0);
    var c := Compact(l, 0, true);
    EndsIn(env, input, c);
    DataSize(input, c);
    CompactCovers(l, 0, true);
    DisjointCover(c, |c|);
    assert c[..|c|] == c;
  }

  /** A partial flush can go wrong: two matches that overlap, with nothing after
      them, survive compaction as they are, one goes out, and the other starts
      before its end. Thirty-five equal bytes and a full buffer of four are enough;
      compaction drops two of the four. */
  method PartialFlushBreaks() returns (e: WindowEncoder, ghost before: bool)
    ensures before && !e.Buffered() && |e.ioptUsed| == 1
  {
    hide Compact, Written;
    var input: seq<byte> := seq(35, k => 7);
    e := new WindowEncoder(Env([], 1, 0, 0, 35), input, 4);
    var l := [RInst(CPY, 0, 10, 20, 0), RInst(CPY, 0, 11, 20, 1), RInst(CPY, 0, 12, 20, 2), RInst(CPY, 0, 25, 10, 3)];
    Overlapping(e.env, input);
    e.ioptUsed := l;
    before := e.Buffered() && |e.ioptUsed| == e.ioptSize;
    ghost var _ := e.FlushInstructions(false);
  }

  lemma Overlapping(env: Env, input: seq<byte>)
    requires |input| == 35 && forall k | 0 <= k < 35 :: input[k] == 7
    ensures var l := [RInst(CPY, 0, 10, 20, 0), RInst(CPY, 0, 11, 20, 1), RInst(CPY, 0, 12, 20, 2), RInst(CPY, 0, 25, 10, 3)];
      ListOk(l) && AllReproduce(env, input, l) && Compact(l, 0, false) == [l[0], l[3]] && !Apart(l[0], l[3])
  {
    hide Reproduces, Compact;
    var l := [RInst(CPY, 0, 10, 20, 0), RInst(CPY, 0, 11, 20, 1), RInst(CPY, 0, 12, 20, 2), RInst(CPY, 0, 25, 10, 3)];
    forall i | 0 <= i < |l| ensures Reproduces(env, input, l[i]) { EqualBytes(env, input, 7, l[i]); }
    var m, n := [l[0], l[2], l[3]], [l[0], l[3]];
    assert Step(l, 0, false) == Next(m, 0) by { assert Remove(l, 1) == m; }
    assert Step(m, 0, false) == Next(n, 0) by { assert Remove(m, 1) == n; }
    assert Step(n, 0, false) == Done;
    CompactUnfolds(l, 0, false);
    CompactUnfolds(m, 0, false);
    CompactUnfolds(n, 0, false);
  }

  lemma EqualBytes(env: Env, input: seq<byte>, x: byte, r: RInst)
    requires r.kind == CPY && r.xtra == 0 && 0 < r.size && r.addr < r.pos && End(r) <= |input|
    requires forall k | 0 <= k < |input| :: input[k] == x
    ensures Reproduces(env, input, r)
  {
  }
}
