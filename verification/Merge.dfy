/** Composition of two whole-file deltas into one. */
module Merge {
  import opened Bytes
  import opened Delta
  import opened Window
  import opened WholeFile

  /** XD3_INVALID_INPUT; or the search for source bytes goes on behind the last
      instruction of the source delta, in memory that holds none. */
  datatype Result<+T> = Ok(value: T) | InvalidInput | RunsPast

  /** The input delta is made of decoded windows: its literals and target copies
      are in range. Whether its source copies fit the source delta is not known. */
  ghost predicate Decoded(w: WInst, nAdds: nat) {
    0 < w.size && w.kind != NOOP
    && (w.kind == RUN ==> w.addr < nAdds)
    && (w.kind == ADD ==> w.addr + w.size <= nAdds)
    && (w.kind >= CPY ==> w.mode <= VCD_TARGET && (w.mode == 0 ==> w.addr < w.position))
  }

  ghost predicate AllDecoded(input: Whole) {
    forall i | 0 <= i < |input.inst| :: Decoded(input.inst[i], |input.adds|)
  }

  /** The faults found while merging: a VCD_TARGET copy, or a source copy that
      starts past the end of the source delta's output. */
  predicate Rejected(w: WInst, nSource: nat) {
    w.kind >= CPY && (w.mode == VCD_TARGET || (w.mode == VCD_SOURCE && w.addr >= nSource))
  }

  /** The fault not found: a source copy that starts inside the source delta's
      output and ends outside. */
  predicate Straddles(w: WInst, nSource: nat) {
    w.kind >= CPY && w.mode == VCD_SOURCE && w.addr < nSource < w.addr + w.size
  }

  /** Position in `inst` of the instruction that writes byte `p`. */
  ghost function Cover(inst: seq<WInst>, end: nat, p: nat): (i: nat)
    requires Tiles(inst, end) && p < end
    ensures i < |inst| && Covers(inst[i], p)
  {
    TilesCovers(inst, end, p, |inst|);
    var i: nat :| i < |inst| && Covers(inst[i], p);
    i
  }

  /** Only one instruction covers a byte. */
  lemma CoverUnique(inst: seq<WInst>, end: nat, p: nat, i: nat)
    requires Tiles(inst, end) && p < end && i < |inst| && Covers(inst[i], p)
    ensures i == Cover(inst, end, p)
  {
    var j := Cover(inst, end, p);
    if i < j {
      TilesOrdered(inst, end, i, j);
    } else if j < i {
      TilesOrdered(inst, end, j, i);
    }
  }

  /** The part `[off, off + take)` of `s` as an instruction of its own, and the
      literal bytes it brings along. */
  ghost function Piece(s: WInst, off: nat, take: nat, pos: nat, sAdds: seq<byte>, nAdds: nat): (WInst, seq<byte>)
    requires s.kind == RUN ==> s.addr < |sAdds|
    requires s.kind == ADD ==> s.addr + off + take <= |sAdds|
  {
    if s.kind == RUN then (WInst(RUN, 0, take, nAdds, pos), [sAdds[s.addr]])
    else if s.kind == ADD then (WInst(ADD, 0, take, nAdds, pos), sAdds[s.addr + off..s.addr + off + take])
    else (WInst(s.kind, s.mode, take, s.addr + off, pos), [])
  }

  ghost function Append(out: Whole, p: (WInst, seq<byte>)): Whole {
    Whole(out.inst + [p.0], out.adds + p.1)
  }

  /** The specification of a source copy: the bytes `[addr, addr + size)` that
      `src` writes, re-expressed as instructions at `pos` and appended to `out`.
      A self-referential copy of `src` is chased through its own address, which
      strictly lowers `addr + size`. */
  ghost function SourceCopy(src: Whole, n: nat, S: nat, pos: nat, addr: nat, size: nat, out: Whole): Whole
    requires WellFormed(src, n, S) && addr + size <= n
    decreases addr + size, size
  {
    if size == 0 then out
    else
      var take := Take(src, n, addr, size);
      SourceCopy(src, n, S, pos + take, addr + take, size - take, CopyOnce(src, n, S, pos, addr, take, out))
  }

  /** As much of `[addr, addr + size)` as one instruction of `src` writes. */
  ghost function Take(src: Whole, n: nat, addr: nat, size: nat): (take: nat)
    requires Tiles(src.inst, n) && addr + size <= n && 0 < size
    ensures 0 < take <= size
  {
    var s := src.inst[Cover(src.inst, n, addr)];
    Min(size, s.position + s.size - addr)
  }

  ghost function CopyOnce(src: Whole, n: nat, S: nat, pos: nat, addr: nat, take: nat, out: Whole): Whole
    requires WellFormed(src, n, S) && addr + take <= n && 0 < take == Take(src, n, addr, take)
    decreases addr + take, 0
  {
    var s := src.inst[Cover(src.inst, n, addr)];
    assert Fits(s, |src.adds|, S);
    var off := addr - s.position;
    if s.kind >= CPY && s.mode == 0 then SourceCopy(src, n, S, pos, s.addr + off, take, out)
    else Append(out, Piece(s, off, take, pos, src.adds, |out.adds|))
  }

  /** One round of a source copy, and where the next one continues. */
  lemma CopyStep(src: Whole, n: nat, S: nat, pos: nat, addr: nat, size: nat, out: Whole)
    requires WellFormed(src, n, S) && addr + size <= n && 0 < size
    ensures var take := Take(src, n, addr, size);
      && SourceCopy(src, n, S, pos, addr, size, out)
         == SourceCopy(src, n, S, pos + take, addr + take, size - take, CopyOnce(src, n, S, pos, addr, take, out))
      && (take < size ==> Cover(src.inst, n, addr + take) == Cover(src.inst, n, addr) + 1)
  {
    var i := Cover(src.inst, n, addr);
    if Take(src, n, addr, size) < size {
      TilesBounds(src.inst, n, i);
      assert i + 1 < |src.inst| && StartsAt(src.inst, i + 1);
      CoverUnique(src.inst, n, addr + Take(src, n, addr, size), i + 1);
    }
  }

  /** The specification of one input instruction. */
  ghost function MergeOne(src: Whole, n: nat, S: nat, adds: seq<byte>, w: WInst, out: Whole): Whole
    requires WellFormed(src, n, S) && Fits(w, |adds|, n)
  {
    if w.kind >= CPY && w.mode != 0 then SourceCopy(src, n, S, w.position, w.addr, w.size, out)
    else
      var p := Piece(w, 0, w.size, w.position, adds, |out.adds|);
      Append(out, (p.0.(mode := w.mode), p.1))
  }

  /** The specification of the first `k` steps of the merge. */
  ghost function MergeUpTo(src: Whole, n: nat, S: nat, input: Whole, k: nat): Result<Whole>
    requires WellFormed(src, n, S) && k <= |input.inst| && AllDecoded(input)
  {
    if k == 0 then Ok(Whole([], []))
    else
      var w := input.inst[k - 1];
      match MergeUpTo(src, n, S, input, k - 1)
      case InvalidInput => InvalidInput
      case RunsPast => RunsPast
      case Ok(out) =>
        assert Decoded(w, |input.adds|);
        if Rejected(w, n) then InvalidInput
        else if Straddles(w, n) then RunsPast
        else Ok(MergeOne(src, n, S, input.adds, w, out))
  }

  ghost function Merged(src: Whole, n: nat, S: nat, input: Whole): Result<Whole>
    requires WellFormed(src, n, S) && AllDecoded(input)
  {
    MergeUpTo(src, n, S, input, |input.inst|)
  }

  /** `out` is well formed up to `length` and shows the bytes of `T`. */
  ghost predicate Good(out: Whole, length: nat, S: seq<byte>, T: seq<byte>) {
    && WellFormed(out, length, |S|) && Agrees(out, S, T)
    && |out.inst| <= length && |out.adds| <= length
  }

  /** A piece shows in the final target what its instruction showed in `M`. */
  lemma PieceGood(s: WInst, off: nat, take: nat, pos: nat, sAdds: seq<byte>, S: seq<byte>, M: seq<byte>,
                  T: seq<byte>, out: Whole)
    requires Fits(s, |sAdds|, |S|) && 0 < take && off + take <= s.size && (s.kind >= CPY ==> s.mode != 0)
    requires s.position + s.size <= |M| && forall k: nat | k < s.size :: Shows(s, k, sAdds, S, M)
    requires Same(T, pos, M, s.position + off, take)
    requires Good(out, pos, S, T)
    ensures Good(Append(out, Piece(s, off, take, pos, sAdds, |out.adds|)), pos + take, S, T)
  {
    var p := Piece(s, off, take, pos, sAdds, |out.adds|);
    forall k: nat | k < take ensures Shows(p.0, k, out.adds + p.1, S, T) {
      assert Shows(s, off + k, sAdds, S, M);
      assert SameAt(T, pos, M, s.position + off, k);
    }
    AppendAgrees(out, pos, p.0, p.1, S, T);
  }

  lemma {:induction false} SourceCopyGood(src: Whole, n: nat, S: seq<byte>, M: seq<byte>, T: seq<byte>,
                                          pos: nat, addr: nat, size: nat, out: Whole)
    requires WellFormed(src, n, |S|) && |M| == n && Agrees(src, S, M)
    requires addr + size <= n && Same(T, pos, M, addr, size)
    requires Good(out, pos, S, T)
    ensures Good(SourceCopy(src, n, |S|, pos, addr, size, out), pos + size, S, T)
    decreases addr + size, size
  {
    if size != 0 {
      var take := Take(src, n, addr, size);
      SamePart(T, pos, M, addr, size, 0, take);
      SamePart(T, pos, M, addr, size, take, size - take);
      CopyOnceGood(src, n, S, M, T, pos, addr, take, out);
      SourceCopyGood(src, n, S, M, T, pos + take, addr + take, size - take,
                     CopyOnce(src, n, |S|, pos, addr, take, out));
    }
  }

  lemma {:induction false} CopyOnceGood(src: Whole, n: nat, S: seq<byte>, M: seq<byte>, T: seq<byte>,
                                        pos: nat, addr: nat, take: nat, out: Whole)
    requires WellFormed(src, n, |S|) && |M| == n && Agrees(src, S, M)
    requires addr + take <= n && 0 < take == Take(src, n, addr, take) && Same(T, pos, M, addr, take)
    requires Good(out, pos, S, T)
    ensures Good(CopyOnce(src, n, |S|, pos, addr, take, out), pos + take, S, T)
    decreases addr + take, 0
  {
    var i := Cover(src.inst, n, addr);
    var s := src.inst[i];
    assert Fits(s, |src.adds|, |S|);
    var off := addr - s.position;
    TilesBounds(src.inst, n, i);
    if s.kind >= CPY && s.mode == 0 {
      var from := s.addr + off;
      forall k: nat | k < take ensures SameAt(T, pos, M, from, k) {
        assert SameAt(T, pos, M, addr, k) && Shows(s, off + k, src.adds, S, M);
      }
      SourceCopyGood(src, n, S, M, T, pos, from, take, out);
    } else {
      PieceGood(s, off, take, pos, src.adds, S, M, T, out);
    }
  }

  lemma MergeOneGood(src: Whole, n: nat, S: seq<byte>, M: seq<byte>, T: seq<byte>,
                     adds: seq<byte>, w: WInst, out: Whole)
    requires WellFormed(src, n, |S|) && |M| == n && Agrees(src, S, M)
    requires 0 < w.size && Fits(w, |adds|, n) && w.position + w.size <= |T|
    requires forall k: nat | k < w.size :: Shows(w, k, adds, M, T)
    requires Good(out, w.position, S, T)
    ensures Good(MergeOne(src, n, |S|, adds, w, out), w.position + w.size, S, T)
  {
    if w.kind >= CPY && w.mode != 0 {
      forall k: nat | k < w.size ensures SameAt(T, w.position, M, w.addr, k) {
        assert Shows(w, k, adds, M, T);
      }
      SourceCopyGood(src, n, S, M, T, w.position, w.addr, w.size, out);
    } else {
      var p := Piece(w, 0, w.size, w.position, adds, |out.adds|);
      var w' := p.0.(mode := w.mode);
      forall k: nat | k < w.size ensures Shows(w', k, out.adds + p.1, S, T) {
        assert Shows(w, k, adds, M, T);
      }
      AppendAgrees(out, w.position, w', p.1, S, T);
    }
  }

  lemma {:induction false} MergeUpToGood(src: Whole, n: nat, S: seq<byte>, M: seq<byte>,
                                         input: Whole, length: nat, T: seq<byte>, k: nat)
    requires WellFormed(src, n, |S|) && |M| == n && Agrees(src, S, M)
    requires WellFormed(input, length, n) && |T| == length && Agrees(input, M, T)
    requires k <= |input.inst|
    ensures var r := MergeUpTo(src, n, |S|, input, k);
      r.Ok? && Good(r.value, EndOf(input.inst, k), S, T)
  {
    if k != 0 {
      var w := input.inst[k - 1];
      MergeUpToGood(src, n, S, M, input, length, T, k - 1);
      var out := MergeUpTo(src, n, |S|, input, k - 1).value;
      assert StartsAt(input.inst, k - 1);
      TilesBounds(input.inst, length, k - 1);
      assert Fits(w, |input.adds|, n);
      MergeOneGood(src, n, S, M, T, input.adds, w, out);
    }
  }

  /** Composition: the merged delta takes the original source straight to the
      final target. Neither of its tables outgrows the target, so no counter of
      the original can wrap when the target is shorter than 2^32. */
  lemma MergeComposes(src: Whole, n: nat, input: Whole, length: nat, S: seq<byte>)
    requires WellFormed(src, n, |S|) && WellFormed(input, length, n)
    ensures var r := Merged(src, n, |S|, input);
      && r.Ok? && WellFormed(r.value, length, |S|)
      && Apply(r.value, length, S) == Apply(input, length, Apply(src, n, S))
      && |r.value.inst| <= length && |r.value.adds| <= length
  {
    var M := Apply(src, n, S);
    var T := Apply(input, length, M);
    ApplyAgrees(src, n, S);
    ApplyAgrees(input, length, M);
    MergeUpToGood(src, n, S, M, input, length, T, |input.inst|);
    assert EndOf(input.inst, |input.inst|) == length;
    AgreesIffApply(Merged(src, n, |S|, input).value, length, S, T);
  }

  /** The first fault among the first `k` instructions decides the outcome. */
  ghost predicate FirstFault(inst: seq<WInst>, n: nat, i: nat) {
    i < |inst| && (Rejected(inst[i], n) || Straddles(inst[i], n))
    && forall j | 0 <= j < i :: !Rejected(inst[j], n) && !Straddles(inst[j], n)
  }

  lemma OneFirstFault(inst: seq<WInst>, n: nat, i: nat, j: nat)
    requires FirstFault(inst, n, i) && FirstFault(inst, n, j)
    ensures i == j
  {
  }

  lemma {:induction false} MergeUpToOutcome(src: Whole, n: nat, S: nat, input: Whole, k: nat)
    requires WellFormed(src, n, S) && AllDecoded(input) && k <= |input.inst|
    ensures match MergeUpTo(src, n, S, input, k)
            case Ok(_) => forall i | 0 <= i < k :: !Rejected(input.inst[i], n) && !Straddles(input.inst[i], n)
            case InvalidInput => exists i: nat :: i < k && FirstFault(input.inst, n, i) && Rejected(input.inst[i], n)
            case RunsPast => exists i: nat :: i < k && FirstFault(input.inst, n, i) && Straddles(input.inst[i], n)
  {
    if k != 0 {
      MergeUpToOutcome(src, n, S, input, k - 1);
      if MergeUpTo(src, n, S, input, k - 1).Ok? && (Rejected(input.inst[k - 1], n) || Straddles(input.inst[k - 1], n)) {
        assert FirstFault(input.inst, n, k - 1);
      }
    }
  }

  /** The merge succeeds exactly when the input can be applied to the source
      delta's output. Otherwise the first fault decides: it is answered with
      XD3_INVALID_INPUT unless it is a copy across the end of that output. */
  lemma MergeOutcome(src: Whole, n: nat, S: nat, input: Whole, length: nat)
    requires WellFormed(src, n, S) && Tiles(input.inst, length) && AllDecoded(input)
    ensures var r := Merged(src, n, S, input);
      && (r.Ok? <==> WellFormed(input, length, n))
      && (r.InvalidInput? <==> exists i: nat :: FirstFault(input.inst, n, i) && Rejected(input.inst[i], n))
      && (r.RunsPast? <==> exists i: nat :: FirstFault(input.inst, n, i) && Straddles(input.inst[i], n))
  {
    MergeUpToOutcome(src, n, S, input, |input.inst|);
    forall i | 0 <= i < |input.inst|
      ensures Fits(input.inst[i], |input.adds|, n) <==> !Rejected(input.inst[i], n) && !Straddles(input.inst[i], n)
    {
      assert Decoded(input.inst[i], |input.adds|);
    }
    forall i: nat, j: nat | FirstFault(input.inst, n, i) && FirstFault(input.inst, n, j) ensures i == j {
      OneFirstFault(input.inst, n, i, j);
    }
  }

  /** Two deltas that do not belong together: the first makes four bytes, the
      second asks for four from the third on. The fault is not found. */
  lemma MergeRunsPast()
    ensures var src, input := Whole([WInst(ADD, 0, 4, 0, 0)], [1, 2, 3, 4]), Whole([WInst(CPY, VCD_SOURCE, 4, 2, 0)], []);
      WellFormed(src, 4, 0) && Tiles(input.inst, 4) && AllDecoded(input) && Merged(src, 4, 0, input) == RunsPast
  {
    var src, input := Whole([WInst(ADD, 0, 4, 0, 0)], [1, 2, 3, 4]), Whole([WInst(CPY, VCD_SOURCE, 4, 2, 0)], []);
    assert StartsAt(src.inst, 0) && StartsAt(input.inst, 0);
    assert MergeUpTo(src, 4, 0, input, 0).Ok?;
  }

  /** Merging three deltas in either order means the same. */
  lemma MergeAssociates(a: Whole, na: nat, b: Whole, nb: nat, c: Whole, nc: nat, S: seq<byte>)
    requires WellFormed(a, na, |S|) && WellFormed(b, nb, na) && WellFormed(c, nc, nb)
    ensures var ab := Merged(a, na, |S|, b); var bc := Merged(b, nb, na, c);
      && ab.Ok? && WellFormed(ab.value, nb, |S|) && bc.Ok? && WellFormed(bc.value, nc, na)
      && var l := Merged(ab.value, nb, |S|, c); var r := Merged(a, na, |S|, bc.value);
      && l.Ok? && r.Ok? && WellFormed(l.value, nc, |S|) && WellFormed(r.value, nc, |S|)
      && Apply(l.value, nc, S) == Apply(r.value, nc, S)
  {
    hide Apply, Merged;
    MergeComposes(a, na, b, nb, S);
    MergeComposes(b, nb, c, nc, Apply(a, na, S));
    MergeComposes(Merged(a, na, |S|, b).value, nb, c, nc, S);
    MergeComposes(a, na, Merged(b, nb, na, c).value, nc, S);
  }

  /** `xd3_whole_state`, both as an input and as the state a merge builds. */
  class WholeState {
    var inst: seq<WInst>
    var adds: seq<byte>
    var length: nat

    constructor ()
      ensures View() == Whole([], []) && length == 0
    {
      inst, adds, length := [], [], 0;
    }

    function View(): Whole
      reads this
    {
      Whole(inst, adds)
    }

    ghost predicate Valid(nSource: nat)
      reads this
    {
      WellFormed(View(), length, nSource)
    }

    /** `xd3_whole_append_inst`: `pos` is the DATA cursor. Since nothing is
        output here, `winstart` and `position` are all the context it needs. */
    method AppendInst(env: Env, h: Half, winstart: nat, data: seq<byte>, pos: nat) returns (next: nat)
      requires Coded(h.kind) && pos + Used(h) <= |data|
      modifies this
      ensures View() == AppendHalf(env, h, winstart, old(View()), old(length), data[pos..])
      ensures length == old(length) + h.size && next == pos + Used(h)
    {
      var winst := WInst(h.kind, 0, h.size, 0, length);
      length := length + h.size;
      next := pos;
      assert data[pos..][..Used(h)] == data[pos..pos + Used(h)];
      if h.kind == RUN {
        winst := winst.(addr := |adds|);
        adds := adds + [data[pos]];
        next := pos + 1;
      } else if h.kind == ADD {
        winst := winst.(addr := |adds|);
        adds := adds + data[pos..pos + h.size];
        next := pos + h.size;
      } else if h.addr < env.cpylen {
        winst := winst.(mode := VCD_SOURCE, addr := env.cpyoff + h.addr);
        assert adds + [] == adds;
      } else {
        winst := winst.(addr := winstart + h.addr - env.cpylen);
        assert adds + [] == adds;
      }
      inst := inst + [winst];
    }

    method MergeRun(target: WholeState, iinst: WInst)
      requires this != target && iinst.addr < |target.adds| && length == iinst.position
      modifies this
      ensures inst == old(inst) + [iinst.(addr := |old(adds)|)]
      ensures adds == old(adds) + [target.adds[iinst.addr]] && length == old(length) + iinst.size
    {
      inst := inst + [WInst(iinst.kind, iinst.mode, iinst.size, |adds|, length)];
      length := length + iinst.size;
      adds := adds + [target.adds[iinst.addr]];
    }

    method MergeAdd(target: WholeState, iinst: WInst)
      requires this != target && iinst.addr + iinst.size <= |target.adds| && length == iinst.position
      modifies this
      ensures inst == old(inst) + [iinst.(addr := |old(adds)|)]
      ensures adds == old(adds) + target.adds[iinst.addr..iinst.addr + iinst.size]
      ensures length == old(length) + iinst.size
    {
      inst := inst + [WInst(iinst.kind, iinst.mode, iinst.size, |adds|, length)];
      length := length + iinst.size;
      adds := adds + target.adds[iinst.addr..iinst.addr + iinst.size];
    }

    method MergeTargetCopy(iinst: WInst)
      modifies this`inst
      ensures inst == old(inst) + [iinst]
    {
      inst := inst + [iinst];
    }

    /** Binary search for the instruction that writes `address`. */
    method FindPosition(address: nat, ghost nSource: nat) returns (r: Result<nat>)
      requires Valid(nSource)
      ensures !r.RunsPast? && (r.Ok? <==> address < length)
      ensures r.Ok? ==> r.value == Cover(inst, length, address)
    {
      if address >= length { return InvalidInput; }
      ghost var c := Cover(inst, length, address);
      var low, high := 0, |inst|;
      while low != high
        invariant 0 <= low <= c < high <= |inst|
      {
        var mid := low + (high - low) / 2;
        if address < inst[mid].position {
          if mid < c { TilesOrdered(inst, length, mid, c); }
          high := mid;
          continue;
        }
        if address >= inst[mid].position + inst[mid].size {
          if c < mid { TilesOrdered(inst, length, c, mid); }
          low := mid + 1;
          continue;
        }
        CoverUnique(inst, length, address, mid);
        return Ok(mid);
      }
    }

    /** Complete the instruction just allocated with the part of `sinst` that
        starts at `off`. */
    method FillPiece(source: WholeState, sinst: WInst, off: nat, minst: WInst)
      requires this != source && inst != [] && inst[|inst| - 1] == minst
      requires minst == WInst(sinst.kind, 0, minst.size, 0, minst.position)
      requires sinst.kind == RUN ==> sinst.addr < |source.adds|
      requires sinst.kind == ADD ==> sinst.addr + off + minst.size <= |source.adds|
      modifies this`inst, this`adds
      ensures View() == Append(Whole(old(inst)[..|old(inst)| - 1], old(adds)),
                               Piece(sinst, off, minst.size, minst.position, source.adds, |old(adds)|))
    {
      var last := |inst| - 1;
      if sinst.kind == RUN {
        inst := inst[last := minst.(addr := |adds|)];
        adds := adds + [source.adds[sinst.addr]];
      } else if sinst.kind == ADD {
        inst := inst[last := minst.(addr := |adds|)];
        adds := adds + source.adds[sinst.addr + off..sinst.addr + off + minst.size];
      } else {
        inst := inst[last := minst.(mode := sinst.mode, addr := sinst.addr + off)];
        assert adds + [] == adds;
      }
    }

    /** One round of the loop of `MergeSourceCopy`: what instruction `sinstNum`
        supplies of the range that `iinst` still asks for. */
    method CopyPiece(source: WholeState, iinst: WInst, sinstNum: nat, ghost nSource: nat) returns (take: nat)
      requires this != source && source.Valid(nSource)
      requires iinst.size > 0 && iinst.addr < source.length
      requires sinstNum == Cover(source.inst, source.length, iinst.addr)
      modifies this`inst, this`adds
      ensures take == Min(iinst.size, source.inst[sinstNum].position + source.inst[sinstNum].size - iinst.addr)
      ensures 0 < take && iinst.addr + take <= source.length
      ensures take == Take(source.View(), source.length, iinst.addr, Min(iinst.size, source.length - iinst.addr))
      ensures View() == CopyOnce(source.View(), source.length, nSource, iinst.position, iinst.addr, take, old(View()))
      decreases iinst.addr + iinst.size, 0
    {
      var sinst := source.inst[sinstNum];
      assert Fits(sinst, |source.adds|, nSource);
      TilesBounds(source.inst, source.length, sinstNum);
      var off := iinst.addr - sinst.position;
      take := Min(iinst.size, sinst.size - off);
      var minst := WInst(sinst.kind, 0, take, 0, iinst.position);
      inst := inst + [minst];
      if sinst.kind >= CPY && sinst.mode == 0 {
        var tinst := WInst(CPY, iinst.mode, take, sinst.addr + off, iinst.position);
        inst := inst[..|inst| - 1];
        assert View() == old(View());
        var _ := MergeSourceCopy(source, tinst, nSource);
      } else {
        FillPiece(source, sinst, off, minst);
      }
    }

    /** Re-express a copy of the source delta's output as instructions on the
        original source. */
    method MergeSourceCopy(source: WholeState, orig: WInst, ghost nSource: nat) returns (r: Result<()>)
      requires this != source && source.Valid(nSource) && orig.size > 0
      modifies this`inst, this`adds
      ensures r.InvalidInput? <==> orig.addr >= source.length
      ensures r.RunsPast? <==> orig.addr < source.length < orig.addr + orig.size
      ensures r.Ok? ==> View() == SourceCopy(source.View(), source.length, nSource,
                                             orig.position, orig.addr, orig.size, old(View()))
      ensures r.InvalidInput? ==> View() == old(View())
      decreases orig.addr + orig.size, 1
    {
      hide SourceCopy, CopyOnce, Tiles, AllFit, Cover;
      var iinst := orig;
      var found := source.FindPosition(iinst.addr, nSource);
      if found.InvalidInput? { return InvalidInput; }
      var sinstNum := found.value;
      ghost var src, n := source.View(), source.length;
      ghost var inside, out0 := Min(orig.size, n - orig.addr), View();
      ghost var goal := SourceCopy(src, n, nSource, orig.position, orig.addr, inside, out0);
      while iinst.size > 0
        invariant iinst.addr + iinst.size == orig.addr + orig.size && iinst.addr <= orig.addr + inside
        invariant if iinst.addr < n then iinst.size > 0 ==> sinstNum == Cover(src.inst, n, iinst.addr) else sinstNum == |src.inst|
        invariant SourceCopy(src, n, nSource, iinst.position, iinst.addr, orig.addr + inside - iinst.addr, View()) == goal
        decreases iinst.size
      {
        if sinstNum == |source.inst| {
          return RunsPast;
        }
        ghost var out := View();
        LastEnds(src, n, nSource, sinstNum, iinst.addr);
        CopyStep(src, n, nSource, iinst.position, iinst.addr, orig.addr + inside - iinst.addr, out);
        var take := CopyPiece(source, iinst, sinstNum, nSource);
        iinst := iinst.(position := iinst.position + take, addr := iinst.addr + take, size := iinst.size - take);
        sinstNum := sinstNum + 1;
      }
      NothingLeft(src, n, nSource, iinst.position, iinst.addr, View());
      r := Ok(());
    }

    /** Apply `input` to `source`; the result is built here. */
    method MergeInputs(source: WholeState, input: WholeState, ghost nSource: nat) returns (r: Result<()>)
      requires this != source && this != input && View() == Whole([], []) && length == 0
      requires source.Valid(nSource) && Tiles(input.inst, input.length) && AllDecoded(input.View())
      modifies this
      ensures var spec := Merged(source.View(), source.length, nSource, input.View());
        match r
        case Ok(_) => spec == Ok(View()) && length == input.length
        case InvalidInput => spec == InvalidInput
        case RunsPast => spec == RunsPast
    {
      hide SourceCopy, Cover;
      r := Ok(());
      var i := 0;
      ghost var src, n, inp := source.View(), source.length, input.View();
      while r.Ok? && i < |input.inst|
        invariant 0 <= i <= |input.inst|
        invariant match r
          case Ok(_) => MergeUpTo(src, n, nSource, inp, i) == Ok(View()) && length == EndOf(inp.inst, i)
          case InvalidInput => MergeUpTo(src, n, nSource, inp, i) == InvalidInput
          case RunsPast => MergeUpTo(src, n, nSource, inp, i) == RunsPast
      {
        var iinst := input.inst[i];
        assert Decoded(iinst, |input.adds|);
        assert StartsAt(inp.inst, i);
        if iinst.kind == RUN {
          MergeRun(input, iinst);
        } else if iinst.kind == ADD {
          MergeAdd(input, iinst);
        } else {
          if iinst.mode == 0 {
            MergeTargetCopy(iinst);
            assert adds + [] == adds;
          } else if iinst.mode == VCD_TARGET {
            r := InvalidInput;
          } else {
            r := MergeSourceCopy(source, iinst, nSource);
          }
          length := length + iinst.size;
        }
        i := i + 1;
      }
      FaultStays(src, n, nSource, inp, i);
    }
  }

  /** After a fault the outcome does not change. */
  lemma {:induction false} FaultStays(src: Whole, n: nat, S: nat, input: Whole, k: nat)
    requires WellFormed(src, n, S) && AllDecoded(input) && k <= |input.inst|
    ensures var r := MergeUpTo(src, n, S, input, k); r.Ok? || Merged(src, n, S, input) == r
    decreases |input.inst| - k
  {
    if k < |input.inst| {
      FaultStays(src, n, S, input, k + 1);
    }
  }

  /** Only the last instruction writes up to the end. */
  lemma LastEnds(src: Whole, end: nat, S: nat, i: nat, p: nat)
    requires WellFormed(src, end, S) && p < end && i == Cover(src.inst, end, p)
    ensures i < |src.inst| && p < src.inst[i].position + src.inst[i].size <= end
    ensures src.inst[i].position + src.inst[i].size == end ==> i == |src.inst| - 1
  {
    TilesBounds(src.inst, end, i);
    if i < |src.inst| - 1 { TilesOrdered(src.inst, end, i, |src.inst| - 1); }
  }

  lemma NothingLeft(src: Whole, n: nat, S: nat, pos: nat, addr: nat, out: Whole)
    requires WellFormed(src, n, S) && addr <= n
    ensures SourceCopy(src, n, S, pos, addr, 0, out) == out
  {
  }
}
