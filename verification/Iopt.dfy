/** The instruction-optimisation buffer: choosing non-overlapping matches. */
module Iopt {
  import opened Bytes
  import opened Delta
  import opened Window

  const MIN_MATCH := 4
  const MAX_MATCH_SPLIT := 18

  /** `xd3_rinst`. For a copy, a nonzero `xtra` marks a source copy whose `addr`
      is a file position; for a run, `xtra` is the byte. */
  datatype RInst = RInst(kind: nat, xtra: byte, pos: nat, size: nat, addr: nat)

  function End(r: RInst): nat {
    r.pos + r.size
  }

  predicate RunAt(input: seq<byte>, pos: nat, x: byte, k: nat) {
    pos + k < |input| && input[pos + k] == x
  }

  /** `r` writes what the input holds at its position. */
  ghost predicate Reproduces(env: Env, input: seq<byte>, r: RInst) {
    && 0 < r.size && End(r) <= |input| && r.kind in {ADD, RUN, CPY}
    && (r.kind == RUN ==> forall k: nat | k < r.size :: RunAt(input, r.pos, r.xtra, k))
    && (r.kind == CPY ==>
          if r.xtra != 0 then
            && env.cpyoff <= r.addr && r.addr + r.size <= env.cpyoff + env.cpylen
            && Same(input, r.pos, env.S, r.addr, r.size)
          else r.addr < r.pos && Same(input, r.pos, input, r.addr, r.size))
  }

  /** Dropping the end or the start of an instruction leaves a valid one. */
  lemma TrimReproduces(env: Env, input: seq<byte>, r: RInst, k: nat, size: nat)
    requires Reproduces(env, input, r) && 0 < size && k + size <= r.size
    ensures Reproduces(env, input, r.(pos := r.pos + k, addr := r.addr + k, size := size))
  {
    var t := r.(pos := r.pos + k, addr := r.addr + k, size := size);
    if r.kind == RUN {
      forall j: nat | j < size ensures RunAt(input, t.pos, t.xtra, j) {
        assert RunAt(input, r.pos, r.xtra, k + j);
      }
    } else if r.kind == CPY {
      SamePart(input, r.pos, if r.xtra != 0 then env.S else input, r.addr, r.size, k, size);
    }
  }

  /** Both the start and the end move on. */
  predicate Before(a: RInst, b: RInst) {
    a.pos < b.pos && End(a) < End(b)
  }

  ghost predicate ListOk(l: seq<RInst>) {
    && (forall i | 0 <= i < |l| :: l[i].size >= MIN_MATCH)
    && (forall i, j | 0 <= i < j < |l| :: Before(l[i], l[j]))
  }

  predicate Apart(a: RInst, b: RInst) {
    End(a) <= b.pos
  }

  /** The first `n` instructions do not overlap. */
  ghost predicate Disjoint(l: seq<RInst>, n: nat) {
    n <= |l| && forall i, j | 0 <= i < j < n :: Apart(l[i], l[j])
  }

  ghost predicate AllReproduce(env: Env, input: seq<byte>, l: seq<RInst>) {
    forall i | 0 <= i < |l| :: Reproduces(env, input, l[i])
  }

  ghost predicate From(l: seq<RInst>, lo: nat) {
    forall i | 0 <= i < |l| :: lo <= l[i].pos
  }

  function Remove(l: seq<RInst>, k: nat): seq<RInst>
    requires k < |l|
  {
    l[..k] + l[k + 1..]
  }

  /** The overlap is nearly the whole of both: only one is worth keeping. */
  predicate KeepOne(r1: RInst, r2: RInst)
    requires Before(r1, r2)
  {
    End(r2) - r1.pos < 2 * MIN_MATCH || End(r2) - End(r1) <= 2 || r2.pos - r1.pos <= 2
  }

  /** Divide an overlap. No subtraction underflows; the two abut afterwards,
      keep their outer ends, and both are still long enough to match. */
  function Split(r1: RInst, r2: RInst): (r: (RInst, RInst))
    requires r1.size >= MIN_MATCH && r2.size >= MIN_MATCH
    requires Before(r1, r2) && !Apart(r1, r2) && !KeepOne(r1, r2)
    ensures End(r.0) == r.1.pos && r.0.pos == r1.pos && End(r.1) == End(r2)
    ensures r2.pos <= r.1.pos <= End(r1)
    ensures r.0.size >= MIN_MATCH && r.1.size >= MIN_MATCH
    ensures r.0 == r1.(size := r.0.size)
    ensures r.1 == r2.(pos := r.1.pos, size := r.1.size, addr := r2.addr + (r.1.pos - r2.pos))
  {
    var gap := End(r2) - r1.pos;
    var average := gap / 2;
    var newsize := Min(MAX_MATCH_SPLIT, gap - average);
    if newsize > r1.size then
      var adjust1 := End(r1) - r2.pos;
      (r1, r2.(size := r2.size - adjust1, pos := r2.pos + adjust1, addr := r2.addr + adjust1))
    else if newsize > r2.size then
      var adjust1 := End(r1) - r2.pos;
      (r1.(size := r1.size - adjust1), r2)
    else
      var adjust0 := r1.size - newsize;
      var adjust1 :=
        if r2.pos > End(r1) - adjust0 then adjust0 - (r2.pos - (End(r1) - adjust0)) else adjust0;
      var r1' := r1.(size := r1.size - adjust1);
      var adjust2 := End(r1') - r2.pos;
      (r1', r2.(size := r2.size - adjust2, pos := r2.pos + adjust2, addr := r2.addr + adjust2))
  }

  /** What the compaction loop keeps at instruction `i`. */
  ghost predicate Progress(l: seq<RInst>, i: nat) {
    ListOk(l) && i <= |l| && Disjoint(l, Min(i + 1, |l|))
  }

  datatype Round = Done | Next(l: seq<RInst>, i: nat)

  /** One round of the compaction loop, at instruction `i`. */
  ghost function Step(l: seq<RInst>, i: nat, force: bool): Round
    requires Progress(l, i)
  {
    if i + 1 >= |l| then Done
    else
      var r1, r2 := l[i], l[i + 1];
      assert Before(r1, r2);
      if Apart(r1, r2) then Next(l, i + 1)
      else if i + 2 < |l| && l[i + 2].pos <= End(r1) + 1 then Next(Remove(l, i + 1), i)
      else if i + 2 == |l| && !force then Done
      else if KeepOne(r1, r2) then
        if r1.size < r2.size then Next(Remove(l, i), i) else Next(Remove(l, i + 1), i + 1)
      else Next(Divided(l, i), i + 1)
  }

  lemma StepOk(l: seq<RInst>, i: nat, force: bool)
    requires Progress(l, i)
    ensures var s := Step(l, i, force);
      s.Next? ==> Progress(s.l, s.i) && |s.l| - s.i < |l| - i
  {
    if i + 1 < |l| {
      var r1, r2 := l[i], l[i + 1];
      assert Before(r1, r2);
      if Apart(r1, r2) {
        AdvanceOk(l, i);
      } else if i + 2 < |l| && l[i + 2].pos <= End(r1) + 1 {
        RemoveSecond(l, i);
      } else if i + 2 == |l| && !force {
      } else if KeepOne(r1, r2) {
        if r1.size < r2.size { RemoveFirst(l, i); } else { RemovePast(l, i); }
      } else {
        SplitOk(l, i);
      }
    }
  }

  /** The specification of the whole loop from instruction `i` on. */
  ghost function Compact(l: seq<RInst>, i: nat, force: bool): seq<RInst>
    requires Progress(l, i)
    decreases |l| - i
  {
    StepOk(l, i, force);
    match Step(l, i, force)
    case Done => l
    case Next(l', i') => Compact(l', i', force)
  }

  lemma CompactUnfolds(l: seq<RInst>, i: nat, force: bool)
    requires Progress(l, i)
    ensures match Step(l, i, force)
            case Done => Compact(l, i, force) == l
            case Next(l', i') =>
              Progress(l', i') && |l'| - i' < |l| - i && Compact(l, i, force) == Compact(l', i', force)
  {
    StepOk(l, i, force);
  }

  lemma AdvanceOk(l: seq<RInst>, i: nat)
    requires Progress(l, i) && i + 1 < |l| && Apart(l[i], l[i + 1])
    ensures Progress(l, i + 1)
  {
    forall a, b | 0 <= a < b < i + 2 ensures Apart(l[a], l[b]) {
      if b == i + 1 && a < i {
        assert Apart(l[a], l[i]) && Before(l[i], l[b]);
      }
    }
  }

  lemma RemoveOk(l: seq<RInst>, k: nat)
    requires ListOk(l) && k < |l|
    ensures ListOk(Remove(l, k))
  {
  }

  lemma RemoveSecond(l: seq<RInst>, i: nat)
    requires Progress(l, i) && i + 1 < |l|
    ensures Progress(Remove(l, i + 1), i)
  {
    RemoveOk(l, i + 1);
  }

  lemma RemoveFirst(l: seq<RInst>, i: nat)
    requires Progress(l, i) && i + 1 < |l|
    ensures Progress(Remove(l, i), i)
  {
    RemoveOk(l, i);
    var m := Remove(l, i);
    forall a, b | 0 <= a < b < i + 1 ensures Apart(m[a], m[b]) {
      if b == i {
        assert Apart(l[a], l[i]) && Before(l[i], l[i + 1]);
      }
    }
  }

  lemma RemovePast(l: seq<RInst>, i: nat)
    requires Progress(l, i) && i + 1 < |l| && (i + 2 < |l| ==> l[i + 2].pos > End(l[i]))
    ensures Progress(Remove(l, i + 1), i + 1)
  {
    RemoveOk(l, i + 1);
    var m := Remove(l, i + 1);
    forall a, b | 0 <= a < b < Min(i + 2, |m|) ensures Apart(m[a], m[b]) {
      if b == i + 1 && a < i {
        assert Apart(l[a], l[i]);
      }
    }
  }

  /** Instructions `i` and `i + 1` divided. */
  ghost function Divided(l: seq<RInst>, i: nat): seq<RInst>
    requires ListOk(l) && i + 1 < |l| && !Apart(l[i], l[i + 1])
    requires Before(l[i], l[i + 1]) && !KeepOne(l[i], l[i + 1])
  {
    var s := Split(l[i], l[i + 1]);
    l[i := s.0][i + 1 := s.1]
  }

  lemma DividedIs(l: seq<RInst>, i: nat)
    requires ListOk(l) && i + 1 < |l| && !Apart(l[i], l[i + 1])
    requires Before(l[i], l[i + 1]) && !KeepOne(l[i], l[i + 1])
    ensures Divided(l, i) == l[i := Split(l[i], l[i + 1]).0][i + 1 := Split(l[i], l[i + 1]).1]
  {
  }

  /** A divided list stays ordered because the third instruction starts after
      the first one ends. */
  lemma SplitOk(l: seq<RInst>, i: nat)
    requires Progress(l, i) && i + 1 < |l| && !Apart(l[i], l[i + 1])
    requires Before(l[i], l[i + 1]) && !KeepOne(l[i], l[i + 1])
    requires i + 2 < |l| ==> l[i + 2].pos > End(l[i]) + 1
    ensures Progress(Divided(l, i), i + 1)
  {
    hide Split;
    var m := Divided(l, i);
    forall a, b | 0 <= a < b < |m| ensures Before(m[a], m[b]) {
      assert Before(l[a], l[b]);
      if b == i {
        assert Apart(l[a], l[i]);
      } else if a == i + 1 && b > i + 2 {
        assert Before(l[i + 2], l[b]);
      }
    }
    forall a, b | 0 <= a < b < i + 2 ensures Apart(m[a], m[b]) {
      if a < i {
        assert Apart(l[a], l[i]);
      }
    }
  }

  /** Compaction keeps every instruction valid and in order. When forced, no
      two of the survivors overlap; otherwise only the last two may. */
  lemma {:induction false} CompactOk(env: Env, input: seq<byte>, l: seq<RInst>, i: nat, force: bool, lo: nat)
    requires Progress(l, i) && AllReproduce(env, input, l) && From(l, lo)
    ensures var r := Compact(l, i, force);
      && ListOk(r) && AllReproduce(env, input, r) && From(r, lo)
      && Disjoint(r, if force || |r| == 0 then |r| else |r| - 1)
    decreases |l| - i
  {
    var s := Step(l, i, force);
    if s.Next? {
      StepOk(l, i, force);
      StepReproduces(env, input, l, i, force, lo);
      CompactOk(env, input, s.l, s.i, force, lo);
    }
  }

  lemma StepReproduces(env: Env, input: seq<byte>, l: seq<RInst>, i: nat, force: bool, lo: nat)
    requires Progress(l, i) && AllReproduce(env, input, l) && From(l, lo)
    ensures var s := Step(l, i, force); s.Next? ==> AllReproduce(env, input, s.l) && From(s.l, lo)
  {
    hide Reproduces;
    hide Split;
    if i + 1 < |l| && !Apart(l[i], l[i + 1]) && !KeepOne(l[i], l[i + 1]) {
      assert Before(l[i], l[i + 1]);
      DividedReproduces(env, input, l, i);
    }
  }

  lemma DividedReproduces(env: Env, input: seq<byte>, l: seq<RInst>, i: nat)
    requires ListOk(l) && AllReproduce(env, input, l) && i + 1 < |l| && !Apart(l[i], l[i + 1])
    requires Before(l[i], l[i + 1]) && !KeepOne(l[i], l[i + 1])
    ensures AllReproduce(env, input, Divided(l, i))
  {
    hide Split;
    hide Reproduces;
    var r1, r2 := l[i], l[i + 1];
    var s := Split(r1, r2);
    assert r1.(pos := r1.pos + 0, addr := r1.addr + 0, size := s.0.size) == s.0;
    TrimReproduces(env, input, r1, 0, s.0.size);
    var k := s.1.pos - r2.pos;
    assert r2.(pos := r2.pos + k, addr := r2.addr + k, size := s.1.size) == s.1;
    TrimReproduces(env, input, r2, k, s.1.size);
  }

  // What compaction covers.

  /** Where the bytes that no earlier instruction covers begin in instruction `k`. */
  function NewFrom(l: seq<RInst>, k: nat): int
    requires k < |l|
  {
    if k == 0 then l[k].pos else Max(l[k].pos, End(l[k - 1]))
  }

  /** How many bytes the first `k` instructions cover. */
  function Cover(l: seq<RInst>, k: nat): int
    requires k <= |l|
  {
    if k == 0 then 0 else Cover(l, k - 1) + (End(l[k - 1]) - NewFrom(l, k - 1))
  }

  /** How many bytes instruction `j` alone covers. */
  function Own(l: seq<RInst>, j: nat): int
    requires j < |l|
  {
    Max(0, (if j + 1 < |l| then Min(End(l[j]), l[j + 1].pos) else End(l[j])) - NewFrom(l, j))
  }

  lemma {:induction false} CoverSame(l: seq<RInst>, m: seq<RInst>, k: nat)
    requires k <= |l| && k <= |m| && l[..k] == m[..k]
    ensures Cover(l, k) == Cover(m, k)
  {
    if k > 0 {
      assert l[..k][..k - 1] == l[..k - 1] && m[..k][..k - 1] == m[..k - 1];
      assert l[..k][k - 1] == l[k - 1] && m[..k][k - 1] == m[k - 1];
      assert k > 1 ==> l[..k][k - 2] == l[k - 2] && m[..k][k - 2] == m[k - 2];
      CoverSame(l, m, k - 1);
    }
  }

  lemma InOrder(l: seq<RInst>, i: nat, j: nat)
    requires ListOk(l) && i < j < |l|
    ensures l[i].pos < l[j].pos && End(l[i]) < End(l[j])
  {
    assert Before(l[i], l[j]);
  }

  lemma {:induction false} RemoveCover(l: seq<RInst>, j: nat, k: nat)
    requires ListOk(l) && j < k <= |l| && (k == j + 1 ==> k == |l|)
    ensures Cover(Remove(l, j), k - 1) == Cover(l, k) - Own(l, j)
  {
    hide ListOk, Before;
    var m := Remove(l, j);
    if j > 0 { InOrder(l, j - 1, j); }
    if k == j + 1 {
      assert m[..j] == l[..j];
      CoverSame(l, m, j);
      LastOwn(l);
    } else if k == j + 2 {
      assert m[..j] == l[..j];
      CoverSame(l, m, j);
      InOrder(l, j, j + 1);
      assert m[j] == l[j + 1] && (j > 0 ==> m[j - 1] == l[j - 1]);
      OwnBetween(l, j);
      assert Cover(m, j + 1) == Cover(m, j) + (End(m[j]) - NewFrom(m, j));
    } else {
      RemoveCover(l, j, k - 1);
      assert m[k - 2] == l[k - 1] && m[k - 3] == l[k - 2];
    }
  }

  lemma LastOwn(l: seq<RInst>)
    requires ListOk(l) && l != []
    ensures var j := |l| - 1; Own(l, j) == End(l[j]) - NewFrom(l, j)
  {
    var j := |l| - 1;
    if j > 0 { InOrder(l, j - 1, j); }
  }

  /** What only `j` covers is what is lost without it. */
  lemma OwnBetween(l: seq<RInst>, j: nat)
    requires ListOk(l) && j + 1 < |l|
    ensures Own(l, j) == End(l[j]) - NewFrom(l, j) + (End(l[j + 1]) - NewFrom(l, j + 1))
      - (End(l[j + 1]) - if j == 0 then l[j + 1].pos else Max(l[j + 1].pos, End(l[j - 1])))
  {
    InOrder(l, j, j + 1);
    if j > 0 { InOrder(l, j - 1, j); }
  }

  lemma {:induction false} DividedCover(l: seq<RInst>, i: nat, k: nat)
    requires ListOk(l) && i + 1 < k <= |l| && !Apart(l[i], l[i + 1])
    requires Before(l[i], l[i + 1]) && !KeepOne(l[i], l[i + 1])
    ensures Cover(Divided(l, i), k) == Cover(l, k)
  {
    hide Split;
    var m := Divided(l, i);
    assert i > 0 ==> Before(l[i - 1], l[i]) && m[i - 1] == l[i - 1];
    if k == i + 2 {
      assert m[..i] == l[..i];
      CoverSame(l, m, i);
    } else {
      DividedCover(l, i, k - 1);
      assert m[k - 1] == l[k - 1] && End(m[k - 2]) == End(l[k - 2]);
    }
  }

  lemma OwnShadowed(l: seq<RInst>, i: nat)
    requires ListOk(l) && i + 2 < |l| && !Apart(l[i], l[i + 1]) && l[i + 2].pos <= End(l[i]) + 1
    ensures 0 <= Own(l, i + 1) <= 1
  {
  }

  lemma OwnShort(l: seq<RInst>, i: nat)
    requires Progress(l, i) && i + 1 < |l| && Before(l[i], l[i + 1]) && !Apart(l[i], l[i + 1]) && KeepOne(l[i], l[i + 1])
    ensures if l[i].size < l[i + 1].size then 0 <= Own(l, i) <= 3 else 0 <= Own(l, i + 1) <= 3
  {
  }

  /** One round: an instruction is dropped only where it costs at most three bytes; of two
      that nearly coincide that is the shorter one. */
  lemma StepCovers(l: seq<RInst>, i: nat, force: bool)
    requires Progress(l, i)
    ensures var s := Step(l, i, force);
      s.Next? ==> |s.l| <= |l| && Cover(s.l, |s.l|) <= Cover(l, |l|) <= Cover(s.l, |s.l|) + 3 * (|l| - |s.l|)
  {
    hide Split, Divided, Own, Cover, Disjoint, KeepOne;
    if i + 1 < |l| {
      var r1, r2 := l[i], l[i + 1];
      assert Before(r1, r2);
      if Apart(r1, r2) {
      } else if i + 2 < |l| && l[i + 2].pos <= End(r1) + 1 {
        OwnShadowed(l, i);
        RemoveCover(l, i + 1, |l|);
      } else if i + 2 == |l| && !force {
      } else if KeepOne(r1, r2) {
        OwnShort(l, i);
        RemoveCover(l, if r1.size < r2.size then i else i + 1, |l|);
      } else {
        DividedCover(l, i, |l|);
        DividedIs(l, i);
      }
    }
  }

  /** Compaction covers nothing new, and loses at most three bytes for each instruction
      that it drops. */
  lemma {:induction false} CompactCovers(l: seq<RInst>, i: nat, force: bool)
    requires Progress(l, i)
    ensures var c := Compact(l, i, force);
      |c| <= |l| && Cover(c, |c|) <= Cover(l, |l|) <= Cover(c, |c|) + 3 * (|l| - |c|)
    decreases |l| - i
  {
    hide Step, Cover;
    CompactUnfolds(l, i, force);
    var s := Step(l, i, force);
    if s.Next? {
      StepCovers(l, i, force);
      CompactCovers(s.l, s.i, force);
    }
  }

  /** Two matches that nearly coincide, at the end of a window: the longer one stays, of
      two that are as long the first. */
  lemma LongerStays(r1: RInst, r2: RInst)
    requires r1.size >= MIN_MATCH && r2.size >= MIN_MATCH && Before(r1, r2) && !Apart(r1, r2) && KeepOne(r1, r2)
    ensures Progress([r1, r2], 0) && Compact([r1, r2], 0, true) == if r1.size < r2.size then [r2] else [r1]
  {
    var l := [r1, r2];
    assert Remove(l, 0) == [r2] && Remove(l, 1) == [r1];
    CompactUnfolds(l, 0, true);
    if r1.size < r2.size { CompactUnfolds([r2], 0, true); } else { CompactUnfolds([r1], 1, true); }
  }

  /** Two matches that overlap less are both kept, one or both shortened, without a gap
      and without an overlap. */
  lemma BothStay(r1: RInst, r2: RInst)
    requires r1.size >= MIN_MATCH && r2.size >= MIN_MATCH && Before(r1, r2) && !Apart(r1, r2) && !KeepOne(r1, r2)
    ensures var c := Compact([r1, r2], 0, true);
      |c| == 2 && c[0].pos == r1.pos && End(c[0]) == c[1].pos && End(c[1]) == End(r2)
  {
    hide Split;
    var l := [r1, r2];
    CompactUnfolds(l, 0, true);
    CompactUnfolds(Divided(l, 0), 1, true);
  }

  /** The compaction loop of `xd3_iopt_flush_instructions`. */
  method CompactList(used: seq<RInst>, force: bool) returns (l: seq<RInst>)
    requires ListOk(used)
    ensures l == Compact(used, 0, force)
  {
    hide Compact, Split, Divided;
    l := used;
    var r1 := 0;
    ghost var goal := Compact(used, 0, force);
    while r1 + 1 < |l|
      invariant Progress(l, r1) && Compact(l, r1, force) == goal
      decreases |l| - r1
    {
      CompactUnfolds(l, r1, force);
      var i1, i2 := l[r1], l[r1 + 1];
      assert Before(i1, i2);
      if End(i1) <= i2.pos {
        r1 := r1 + 1;
        continue;
      }
      if r1 + 2 < |l| {
        if l[r1 + 2].pos <= End(i1) + 1 {
          l := Remove(l, r1 + 1);
          continue;
        }
      } else if !force {
        break;
      }
      if KeepOne(i1, i2) {
        if i1.size < i2.size {
          l := Remove(l, r1);
        } else {
          l := Remove(l, r1 + 1);
          r1 := r1 + 1;
        }
      } else {
        var s := Split(i1, i2);
        DividedIs(l, r1);
        l := l[r1 := s.0][r1 + 1 := s.1];
        r1 := r1 + 1;
      }
    }
    CompactUnfolds(l, r1, force);
  }

  /** How many of `k` instructions one flush encodes: all, or up to half the
      buffer, as long as three remain. */
  function Flushed(k: nat, size: nat, force: bool): int {
    if force || k == 0 then k else Max(1, Min(size / 2 + 1, k - 2))
  }

  /** What is left after `n` instructions of a compacted list have gone out. */
  lemma RestFrom(c: seq<RInst>, n: nat, force: bool)
    requires ListOk(c) && 0 < n <= |c| && Disjoint(c, if force then |c| else |c| - 1)
    requires force || n == 1 || |c| >= n + 2
    ensures ListOk(c[n..])
    ensures From(c[n..], End(c[n - 1])) <==> force || !(|c| == 2 && !Apart(c[0], c[1]))
  {
  }

  /** Without force the last instruction stays as it is. */
  lemma {:induction false} LastStays(l: seq<RInst>, i: nat)
    requires Progress(l, i) && l != []
    ensures var c := Compact(l, i, false); c != [] && c[|c| - 1] == l[|l| - 1]
    decreases |l| - i
  {
    hide Step, Compact, Progress;
    CompactUnfolds(l, i, false);
    var s := Step(l, i, false);
    if s.Next? {
      StepLast(l, i);
      LastStays(s.l, s.i);
    }
  }

  lemma StepLast(l: seq<RInst>, i: nat)
    requires Progress(l, i) && Step(l, i, false).Next?
    ensures var s := Step(l, i, false); s.l != [] && l != [] && s.l[|s.l| - 1] == l[|l| - 1]
  {
    hide Split, KeepOne, ListOk, Disjoint;
    assert i + 1 < |l|;
  }

  /** A new instruction behind a list of which a partial flush has encoded a part:
      whether it, and what is left, lies behind the part encoded. */
  predicate FlushFits(c: seq<RInst>, r: RInst) {
    !(|c| == 2 && !Apart(c[0], c[1])) && !(|c| == 1 && !Apart(c[0], r))
  }

  lemma FlushFitsIff(c: seq<RInst>, n: nat, r: RInst)
    requires ListOk(c + [r]) && Disjoint(c, if c == [] then 0 else |c| - 1) && 0 < n <= |c|
    requires n == 1 || |c| >= n + 2
    requires n == |c| ==> n == 1
    ensures ListOk(c[n..] + [r])
    ensures From(c[n..] + [r], End(c[n - 1])) <==> FlushFits(c, r)
    ensures End(c[n - 1]) <= r.pos || !FlushFits(c, r)
  {
    var m, t := c + [r], c[n..] + [r];
    forall i | 0 <= i < |t| ensures t[i] == m[n + i] {
    }
    assert forall i | 0 <= i < |c| :: Before(m[i], m[|c|]);
    if FlushFits(c, r) {
      if n < |c| { assert Apart(c[n - 1], c[n]); }
      forall i | 0 <= i < |t| ensures End(c[n - 1]) <= t[i].pos {
        if n < |c| { assert i > 0 ==> Before(m[n], m[n + i]); }
      }
      assert t[|t| - 1] == r;
    } else {
      assert End(c[n - 1]) > t[0].pos;
    }
  }
}
