/** Reading decoded windows into one whole-file delta, and why that keeps their
    meaning. */
module WholeFile {
  import opened Bytes
  import opened Options
  import opened AddressCache
  import opened CodeTable
  import opened Delta
  import opened Window

  /** A half-instruction as a whole-file instruction: file positions instead of
      window addresses, `nAdds` as the place of its literals. */
  function WholeInst(env: Env, h: Half, winstart: nat, nAdds: nat, length: nat): WInst {
    if h.kind < CPY then WInst(h.kind, 0, h.size, nAdds, length)
    else if h.addr < env.cpylen then WInst(h.kind, VCD_SOURCE, h.size, env.cpyoff + h.addr, length)
    else WInst(h.kind, 0, h.size, winstart + h.addr - env.cpylen, length)
  }

  /** The specification of `xd3_whole_append_inst`. */
  function AppendHalf(env: Env, h: Half, winstart: nat, d: Whole, length: nat, data: seq<byte>): Whole
    requires Used(h) <= |data|
  {
    Whole(d.inst + [WholeInst(env, h, winstart, |d.adds|, length)], d.adds + data[..Used(h)])
  }

  /** Output extended by one half-instruction, seen in the whole target `T`. */
  lemma HalfAppends(env: Env, h: Half, data: seq<byte>, out: seq<byte>, d: Whole, winstart: nat, T: seq<byte>)
    requires env.Valid() && Coded(h.kind) && 0 < h.size && (h.kind >= CPY ==> h.addr < env.cpylen + |out|)
    requires Output(env, h, data, out).Some?
    requires var out' := Output(env, h, data, out).value.1; Same(T, winstart, out', 0, |out'|)
    requires WellFormed(d, winstart + |out|, |env.S|) && Agrees(d, env.S, T)
    ensures Used(h) <= |data|
    ensures var d' := AppendHalf(env, h, winstart, d, winstart + |out|, data);
      WellFormed(d', winstart + |out| + h.size, |env.S|) && Agrees(d', env.S, T)
  {
    var w := Resolve(env, h, |out|);
    var out' := Output(env, h, data, out).value.1;
    var lits := data[..Used(h)];
    var w' := WholeInst(env, h, winstart, |d.adds|, winstart + |out|);
    forall k: nat | k < w'.size ensures Shows(w', k, d.adds + lits, env.S, T) {
      ExecuteBytes(w, w.size, data, env.S, out, k);
      assert SameAt(T, winstart, out', 0, |out| + k);
      if w.kind >= CPY && w.mode == 0 {
        assert SameAt(T, winstart, out', 0, w.addr + k);
      }
    }
    AppendAgrees(d, winstart + |out|, w', lits, env.S, T);
  }

  /** Neither half of an opcode is empty. */
  predicate HalvesNonEmpty(env: Env, e: DInst, st: State)
    requires StateOk(env, st) && TableEntry(e) && DecodeInst(env, e, st).Some?
  {
    var p1 := ParseHalf(env, e.type1, e.size1, st.inst, st.addr, st.cache, env.cpylen + |st.out|).value;
    && 0 < p1.h.size
    && (e.type2 != NOOP ==> 0 < ParseHalf(env, e.type2, e.size2, p1.inst, p1.addr, p1.cache, p1.pos).value.h.size)
  }

  /** No instruction of the window is empty. */
  predicate NoneEmpty(env: Env, st: State)
    requires StateOk(env, st)
    decreases |st.inst|
  {
    st.inst != [] && DecodeOne(env, st).Some? ==>
      HalvesNonEmpty(env, Entry(st.inst[0]), Tail(st)) && NoneEmpty(env, DecodeOne(env, st).value)
  }

  /** The specification of `xd3_whole_append_window`: each opcode parsed, each of
      its halves appended. */
  ghost function AppendWindow(env: Env, st: State, winstart: nat, d: Whole): Whole
    requires StateOk(env, st) && Run(env, st).Some?
    decreases |st.inst|
  {
    if st.inst == [] then d
    else AppendWindow(env, DecodeOne(env, st).value, winstart, AppendOne(env, Entry(st.inst[0]), Tail(st), winstart, d))
  }

  function Tail(st: State): State
    requires st.inst != []
  {
    State(st.inst[1..], st.data, st.addr, st.cache, st.out)
  }

  ghost function AppendOne(env: Env, e: DInst, st: State, winstart: nat, d: Whole): Whole
    requires StateOk(env, st) && TableEntry(e) && DecodeInst(env, e, st).Some?
  {
    var p1 := ParseHalf(env, e.type1, e.size1, st.inst, st.addr, st.cache, env.cpylen + |st.out|).value;
    OutputUses(env, p1.h, st.data, st.out);
    var pos := winstart + |st.out|;
    var d1 := AppendHalf(env, p1.h, winstart, d, pos, st.data);
    if e.type2 == NOOP then d1
    else
      var p2 := ParseHalf(env, e.type2, e.size2, p1.inst, p1.addr, p1.cache, p1.pos).value;
      var o1 := Output(env, p1.h, st.data, st.out).value;
      OutputUses(env, p2.h, o1.0, o1.1);
      AppendHalf(env, p2.h, winstart, d1, pos + p1.h.size, o1.0)
  }

  lemma OutputUses(env: Env, h: Half, data: seq<byte>, out: seq<byte>)
    requires env.Valid() && Coded(h.kind) && (h.kind >= CPY ==> h.addr < env.cpylen + |out|)
    requires Output(env, h, data, out).Some?
    ensures Used(h) <= |data| && out <= Output(env, h, data, out).value.1
  {
  }

  lemma OneAppends(env: Env, e: DInst, st: State, d: Whole, winstart: nat, T: seq<byte>)
    requires StateOk(env, st) && TableEntry(e) && DecodeInst(env, e, st).Some?
    requires HalvesNonEmpty(env, e, st)
    requires var out' := DecodeInst(env, e, st).value.out; Same(T, winstart, out', 0, |out'|)
    requires WellFormed(d, winstart + |st.out|, |env.S|) && Agrees(d, env.S, T)
    ensures var st' := DecodeInst(env, e, st).value;
      && WellFormed(AppendOne(env, e, st, winstart, d), winstart + |st'.out|, |env.S|)
      && Agrees(AppendOne(env, e, st, winstart, d), env.S, T)
  {
    hide ParseHalf, Output, WellFormed, Agrees, AppendHalf, CacheOk;
    var p1 := ParseHalf(env, e.type1, e.size1, st.inst, st.addr, st.cache, env.cpylen + |st.out|).value;
    var o1 := Output(env, p1.h, st.data, st.out).value;
    OutputUses(env, p1.h, st.data, st.out);
    var out' := DecodeInst(env, e, st).value.out;
    if e.type2 == NOOP {
      HalfAppends(env, p1.h, st.data, st.out, d, winstart, T);
    } else {
      var p2 := ParseHalf(env, e.type2, e.size2, p1.inst, p1.addr, p1.cache, p1.pos).value;
      OutputUses(env, p2.h, o1.0, o1.1);
      SamePrefix(T, winstart, o1.1, out');
      HalfAppends(env, p1.h, st.data, st.out, d, winstart, T);
      var d1 := AppendHalf(env, p1.h, winstart, d, winstart + |st.out|, st.data);
      HalfAppends(env, p2.h, o1.0, o1.1, d1, winstart, T);
    }
  }

  lemma SamePrefix(T: seq<byte>, winstart: nat, o: seq<byte>, o': seq<byte>)
    requires o <= o' && Same(T, winstart, o', 0, |o'|)
    ensures Same(T, winstart, o, 0, |o|)
  {
    forall k: nat | k < |o| ensures SameAt(T, winstart, o, 0, k) {
      assert SameAt(T, winstart, o', 0, k);
    }
  }

  lemma {:induction false} RunGrows(env: Env, st: State)
    requires StateOk(env, st) && Run(env, st).Some?
    ensures st.out <= Run(env, st).value.out
    decreases |st.inst|
  {
    if st.inst != [] {
      OneGrows(env, Entry(st.inst[0]), Tail(st));
      RunGrows(env, DecodeOne(env, st).value);
    }
  }

  lemma OneGrows(env: Env, e: DInst, st: State)
    requires StateOk(env, st) && TableEntry(e) && DecodeInst(env, e, st).Some?
    ensures st.out <= DecodeInst(env, e, st).value.out
  {
    hide ParseHalf, Output, CacheOk;
    var p1 := ParseHalf(env, e.type1, e.size1, st.inst, st.addr, st.cache, env.cpylen + |st.out|).value;
    OutputUses(env, p1.h, st.data, st.out);
    if e.type2 != NOOP {
      var p2 := ParseHalf(env, e.type2, e.size2, p1.inst, p1.addr, p1.cache, p1.pos).value;
      var o1 := Output(env, p1.h, st.data, st.out).value;
      OutputUses(env, p2.h, o1.0, o1.1);
    }
  }

  lemma {:induction false} WindowAppends(env: Env, st: State, d: Whole, winstart: nat, T: seq<byte>)
    requires StateOk(env, st) && Run(env, st).Some? && NoneEmpty(env, st)
    requires var out' := Run(env, st).value.out; Same(T, winstart, out', 0, |out'|)
    requires WellFormed(d, winstart + |st.out|, |env.S|) && Agrees(d, env.S, T)
    ensures var d' := AppendWindow(env, st, winstart, d);
      WellFormed(d', winstart + |Run(env, st).value.out|, |env.S|) && Agrees(d', env.S, T)
    decreases |st.inst|
  {
    hide WellFormed, Agrees, DecodeInst, CacheOk, Entry, AppendOne, ParseHalf, Output;
    if st.inst != [] {
      var st' := DecodeOne(env, st).value;
      RunGrows(env, st');
      SamePrefix(T, winstart, st'.out, Run(env, st).value.out);
      OneAppends(env, Entry(st.inst[0]), Tail(st), d, winstart, T);
      WindowAppends(env, st', AppendOne(env, Entry(st.inst[0]), Tail(st), winstart, d), winstart, T);
    }
  }

  /** Appending a window to a whole-file delta appends the window's bytes to the
      target that the delta stands for. */
  lemma AppendedWindowApplies(env: Env, inst: seq<byte>, data: seq<byte>, addr: seq<byte>, W: seq<byte>,
                              d: Whole, length: nat)
    requires env.Valid() && Decode(env, inst, data, addr) == Some(W)
    requires NoneEmpty(env, State(inst, data, addr, Empty(NEAR_MODES, SAME_MODES), []))
    requires WellFormed(d, length, |env.S|)
    ensures var st := State(inst, data, addr, Empty(NEAR_MODES, SAME_MODES), []);
      var d' := AppendWindow(env, st, length, d);
      && WellFormed(d', length + |W|, |env.S|)
      && Apply(d', length + |W|, env.S) == Apply(d, length, env.S) + W
  {
    hide Run, Apply, NoneEmpty, AppendWindow, WellFormed;
    var st := State(inst, data, addr, Empty(NEAR_MODES, SAME_MODES), []);
    var T0 := Apply(d, length, env.S);
    var T := T0 + W;
    ApplyAgrees(d, length, env.S);
    AgreesGrows(d, length, env.S, T0, T);
    forall k: nat | k < |W| ensures SameAt(T, length, W, 0, k) {
    }
    WindowAppends(env, st, d, length, T);
    AgreesIffApply(AppendWindow(env, st, length, d), length + |W|, env.S, T);
  }

  lemma AgreesGrows(d: Whole, length: nat, S: seq<byte>, T: seq<byte>, T': seq<byte>)
    requires WellFormed(d, length, |S|) && Agrees(d, S, T) && |T| == length && T <= T'
    ensures Agrees(d, S, T')
  {
    forall i: nat, k: nat | i < |d.inst| && k < d.inst[i].size ensures Shows(d.inst[i], k, d.adds, S, T') {
      assert Shows(d.inst[i], k, d.adds, S, T);
    }
  }
}
