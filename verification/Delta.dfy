/** Instructions of the VCDIFF format and the meaning of a whole-file delta:
    what bytes it rebuilds from a given source. */
module Delta {
  import opened Bytes

  /** Instruction kinds; every value from CPY up is a copy. */
  const NOOP := 0
  const ADD := 1
  const RUN := 2
  const CPY := 3

  /** Copy modes of a whole-file instruction: 0 copies from the target itself. */
  const VCD_SOURCE := 1
  const VCD_TARGET := 2

  datatype WInst = WInst(kind: nat, mode: nat, size: nat, addr: nat, position: nat)

  /** A whole-file delta: instructions and the literal bytes ADD and RUN refer to. */
  datatype Whole = Whole(inst: seq<WInst>, adds: seq<byte>)

  /** `w` refers only to bytes that exist: literals, source bytes, or target
      bytes that are already written when `w` starts. */
  predicate Fits(w: WInst, nAdds: nat, nSource: nat) {
    && w.kind != NOOP
    && (w.kind == RUN ==> w.addr < nAdds)
    && (w.kind == ADD ==> w.addr + w.size <= nAdds)
    && (w.kind >= CPY && w.mode == 0 ==> w.addr < w.position)
    && (w.kind >= CPY && w.mode != 0 ==> w.mode == VCD_SOURCE && w.addr + w.size <= nSource)
  }

  /** Where the first `k` instructions end. */
  function EndOf(inst: seq<WInst>, k: nat): nat
    requires k <= |inst|
  {
    if k == 0 then 0 else inst[k - 1].position + inst[k - 1].size
  }

  ghost predicate StartsAt(inst: seq<WInst>, i: nat) {
    i < |inst| && inst[i].position == EndOf(inst, i)
  }

  /** The instructions cover `[0, end)` in order and without gaps. */
  ghost predicate Tiles(inst: seq<WInst>, end: nat) {
    end == EndOf(inst, |inst|) && forall i: nat | i < |inst| :: StartsAt(inst, i)
  }

  ghost predicate AllFit(inst: seq<WInst>, nAdds: nat, nSource: nat) {
    forall i | 0 <= i < |inst| :: 0 < inst[i].size && Fits(inst[i], nAdds, nSource)
  }

  ghost predicate WellFormed(d: Whole, length: nat, nSource: nat) {
    Tiles(d.inst, length) && AllFit(d.inst, |d.adds|, nSource)
  }

  /** Byte `k` that instruction `w` writes; `T` is the target rebuilt so far. */
  function ByteAt(w: WInst, k: nat, adds: seq<byte>, S: seq<byte>, T: seq<byte>): byte
    requires Fits(w, |adds|, |S|) && k < w.size && w.position + k <= |T|
  {
    if w.kind == RUN then adds[w.addr]
    else if w.kind == ADD then adds[w.addr + k]
    else if w.mode == 0 then T[w.addr + k]
    else S[w.addr + k]
  }

  /** Run the first `n` bytes of one instruction, a byte at a time, so that a
      target copy may read bytes it has itself just written. */
  function Execute(w: WInst, n: nat, adds: seq<byte>, S: seq<byte>, T: seq<byte>): (r: seq<byte>)
    requires Fits(w, |adds|, |S|) && n <= w.size && w.position == |T|
    ensures |r| == |T| + n && T <= r
  {
    if n == 0 then T
    else
      var t := Execute(w, n - 1, adds, S, T);
      t + [ByteAt(w, n - 1, adds, S, t)]
  }

  /** The reference meaning of a delta: run its instructions in order. */
  function Apply(d: Whole, length: nat, S: seq<byte>): (T: seq<byte>)
    requires WellFormed(d, length, |S|)
    ensures |T| == length
    decreases |d.inst|
  {
    if d.inst == [] then []
    else
      var w := d.inst[|d.inst| - 1];
      TilesPrefix(d.inst, length);
      Execute(w, w.size, d.adds, S, Apply(Whole(d.inst[..|d.inst| - 1], d.adds), w.position, S))
  }

  /** Byte `k` of `w` is what `w` says it is, with `T` as the target. */
  ghost predicate Shows(w: WInst, k: nat, adds: seq<byte>, S: seq<byte>, T: seq<byte>) {
    && Fits(w, |adds|, |S|) && k < w.size && w.position + k < |T|
    && T[w.position + k] == ByteAt(w, k, adds, S, T)
  }

  /** Declarative reading of a delta: `T` satisfies the equation of every byte. */
  ghost predicate Agrees(d: Whole, S: seq<byte>, T: seq<byte>) {
    forall i: nat, k: nat | i < |d.inst| && k < d.inst[i].size :: Shows(d.inst[i], k, d.adds, S, T)
  }

  /** All but the last instruction tile up to where the last one starts. */
  lemma TilesPrefix(inst: seq<WInst>, end: nat)
    requires Tiles(inst, end) && inst != []
    ensures Tiles(inst[..|inst| - 1], inst[|inst| - 1].position)
  {
    var p := inst[..|inst| - 1];
    assert StartsAt(inst, |inst| - 1);
    forall i: nat | i < |p| ensures StartsAt(p, i) {
      assert StartsAt(inst, i);
    }
  }

  lemma TilesAppend(inst: seq<WInst>, end: nat, w: WInst)
    requires Tiles(inst, end) && w.position == end
    ensures Tiles(inst + [w], end + w.size)
  {
    var q := inst + [w];
    forall i: nat | i < |q| ensures StartsAt(q, i) {
      assert i < |inst| ==> StartsAt(inst, i);
    }
  }

  /** Instructions are laid out in increasing order. */
  lemma {:induction false} TilesOrdered(inst: seq<WInst>, end: nat, i: nat, j: nat)
    requires Tiles(inst, end) && i < j < |inst|
    ensures inst[i].position + inst[i].size <= inst[j].position
    decreases j
  {
    assert StartsAt(inst, j);
    if i < j - 1 {
      TilesOrdered(inst, end, i, j - 1);
    }
  }

  lemma TilesBounds(inst: seq<WInst>, end: nat, i: nat)
    requires Tiles(inst, end) && i < |inst|
    ensures inst[i].position + inst[i].size <= end
  {
    if i < |inst| - 1 {
      TilesOrdered(inst, end, i, |inst| - 1);
    }
  }

  ghost predicate Covers(w: WInst, p: nat) {
    w.position <= p < w.position + w.size
  }

  /** Every position of the range lies in some instruction. */
  lemma {:induction false} TilesCovers(inst: seq<WInst>, end: nat, p: nat, k: nat)
    requires Tiles(inst, end) && k <= |inst| && p < EndOf(inst, k)
    ensures exists i: nat :: i < |inst| && Covers(inst[i], p)
  {
    assert StartsAt(inst, k - 1);
    if inst[k - 1].position <= p {
      assert Covers(inst[k - 1], p);
    } else {
      TilesCovers(inst, end, p, k - 1);
    }
  }

  lemma {:induction false} ExecuteBytes(w: WInst, n: nat, adds: seq<byte>, S: seq<byte>, T: seq<byte>, k: nat)
    requires Fits(w, |adds|, |S|) && k < n <= w.size && w.position == |T|
    ensures Shows(w, k, adds, S, Execute(w, n, adds, S, T))
  {
    if k < n - 1 {
      ExecuteBytes(w, n - 1, adds, S, T, k);
    }
  }

  /** Running a delta produces a target that satisfies all of its equations. */
  lemma {:induction false} ApplyAgrees(d: Whole, length: nat, S: seq<byte>)
    requires WellFormed(d, length, |S|)
    ensures Agrees(d, S, Apply(d, length, S))
    decreases |d.inst|
  {
    if d.inst != [] {
      var last := |d.inst| - 1;
      var w := d.inst[last];
      var d0 := Whole(d.inst[..last], d.adds);
      var T := Apply(d, length, S);
      TilesPrefix(d.inst, length);
      ApplyAgrees(d0, w.position, S);
      forall i: nat, k: nat | i < |d.inst| && k < d.inst[i].size
        ensures Shows(d.inst[i], k, d.adds, S, T)
      {
        if i < last {
          assert Shows(d0.inst[i], k, d0.adds, S, Apply(d0, w.position, S));
        } else {
          ExecuteBytes(w, w.size, d.adds, S, Apply(d0, w.position, S), k);
        }
      }
    }
  }

  /** The equations have one solution only, so the two readings coincide. */
  lemma {:induction false} AgreesUnique(d: Whole, length: nat, S: seq<byte>, T: seq<byte>, U: seq<byte>, p: nat)
    requires WellFormed(d, length, |S|) && p < length <= |T| && length <= |U|
    requires Agrees(d, S, T) && Agrees(d, S, U)
    ensures T[p] == U[p]
    decreases p
  {
    TilesCovers(d.inst, length, p, |d.inst|);
    var i: nat :| i < |d.inst| && Covers(d.inst[i], p);
    var w := d.inst[i];
    var k := p - w.position;
    assert Shows(w, k, d.adds, S, T) && Shows(w, k, d.adds, S, U);
    if w.kind >= CPY && w.mode == 0 {
      AgreesUnique(d, length, S, T, U, w.addr + k);
    }
  }

  /** `Agrees` is exactly equality with the executed target. */
  lemma AgreesIffApply(d: Whole, length: nat, S: seq<byte>, T: seq<byte>)
    requires WellFormed(d, length, |S|) && |T| == length
    ensures Agrees(d, S, T) <==> T == Apply(d, length, S)
  {
    ApplyAgrees(d, length, S);
    if Agrees(d, S, T) {
      forall p: nat | p < length ensures T[p] == Apply(d, length, S)[p] {
        AgreesUnique(d, length, S, T, Apply(d, length, S), p);
      }
    }
  }

  /** Growing the delta by one instruction whose bytes `T` already shows. */
  lemma AppendAgrees(d: Whole, length: nat, w: WInst, lits: seq<byte>, S: seq<byte>, T: seq<byte>)
    requires WellFormed(d, length, |S|) && Agrees(d, S, T)
    requires w.position == length && 0 < w.size && Fits(w, |d.adds + lits|, |S|)
    requires forall k: nat | k < w.size :: Shows(w, k, d.adds + lits, S, T)
    ensures var d' := Whole(d.inst + [w], d.adds + lits);
      WellFormed(d', length + w.size, |S|) && Agrees(d', S, T)
  {
    var d' := Whole(d.inst + [w], d.adds + lits);
    TilesAppend(d.inst, length, w);
    forall i: nat, k: nat | i < |d'.inst| && k < d'.inst[i].size
      ensures Shows(d'.inst[i], k, d'.adds, S, T)
    {
      if i < |d.inst| {
        assert Shows(d.inst[i], k, d.adds, S, T);
      }
    }
  }
}
