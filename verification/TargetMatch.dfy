/** Matching the input against its own beginning, along a chain of positions with
    the same checksum. */
module TargetMatch {
  import opened Bytes
  import opened Delta
  import opened Window
  import opened Iopt

  const HASH_CKOFFSET := 1

  /** How far the input at `base` agrees with the input at `pos`. */
  function Agreement(input: seq<byte>, base: nat, pos: nat): (n: nat)
    requires base < pos <= |input|
    ensures pos + n <= |input| && Same(input, pos, input, base, n)
    ensures pos + n < |input| ==> input[pos + n] != input[base + n]
    decreases |input| - pos
  {
    if pos == |input| || input[pos] != input[base] then 0
    else
      var n := Agreement(input, base + 1, pos + 1);
      Longer(input, pos, base, n);
      n + 1
  }

  lemma Longer(a: seq<byte>, i: nat, j: nat, n: nat)
    requires j < i < |a| && a[i] == a[j] && Same(a, i + 1, a, j + 1, n)
    ensures Same(a, i, a, j, n + 1)
  {
    forall k: nat | k < n + 1 ensures SameAt(a, i, a, j, k) {
      if k > 0 {
        var i', j' := i + 1, j + 1;
        assert SameAt(a, i', a, j', k - 1);
      }
    }
  }

  /** Walking back from `base`: `small_prev` names the position before, offset by
      one, in a table that is reused every `mask + 1` positions. */
  function Previous(prev: seq<nat>, mask: nat, base: nat, pos: nat): (p: int)
    requires |prev| == mask + 1
    ensures p <= base
  {
    var last := prev[base % (mask + 1)];
    if last == 0 || last - HASH_CKOFFSET > base || pos - (last - HASH_CKOFFSET) > mask then -1 else last - HASH_CKOFFSET
  }

  /** The `n` candidates from `base` on. */
  function Chain(prev: seq<nat>, mask: nat, base: nat, pos: nat, n: nat): (c: seq<nat>)
    requires |prev| == mask + 1
    ensures |c| <= n && forall i | 0 <= i < |c| :: c[i] <= base
    decreases n
  {
    if n == 0 then []
    else
      var p := Previous(prev, mask, base, pos);
      [base] + if p < 0 then [] else Chain(prev, mask, p, pos, n - 1)
  }

  /** The best of the candidates seen, and the nearest of the best. */
  ghost predicate Best(input: seq<byte>, pos: nat, seen: seq<nat>, len: nat, off: nat) {
    && (forall i | 0 <= i < |seen| :: seen[i] < pos <= |input| && Agreement(input, seen[i], pos) <= len)
    && (forall i | 0 <= i < |seen| :: 0 < len == Agreement(input, seen[i], pos) ==> seen[i] <= off)
    && (len > 0 ==> off in seen && off < pos <= |input| && Agreement(input, off, pos) == len)
  }

  /** None but the last of the candidates ends the walk. */
  ghost predicate Short(input: seq<byte>, pos: nat, seen: seq<nat>, longEnough: nat) {
    forall i | 0 <= i < |seen| :: seen[i] < pos <= |input| && !Ends(input, seen[i], pos, longEnough)
  }

  ghost predicate Ends(input: seq<byte>, base: nat, pos: nat, longEnough: nat)
    requires base < pos <= |input|
  {
    var n := Agreement(input, base, pos);
    0 < n && (n >= longEnough || pos + n == |input|)
  }

  /** What a walk along the chain has seen: all of it, or up to the first candidate that
      is long enough or agrees up to the end of the input. */
  ghost predicate Walked(input: seq<byte>, pos: nat, base: nat, prev: seq<nat>, mask: nat, chain: nat, longEnough: nat,
                         seen: seq<nat>, best: nat, off: nat)
  {
    && |prev| == mask + 1 && base < pos <= |input| && seen != [] && Best(input, pos, seen, best, off)
    && seen <= Chain(prev, mask, base, pos, chain) && Short(input, pos, seen[..|seen| - 1], longEnough)
    && (Ends(input, seen[|seen| - 1], pos, longEnough) || seen == Chain(prev, mask, base, pos, chain))
  }

  /** A match too short for its distance. */
  predicate TooFar(len: nat, dist: int) {
    (len == 4 && dist >= 0x4000) || (len == 5 && dist >= 0x20_0000)
  }

  /** `xd3_smatch`: the longest agreement along the chain, or the first that is
      long enough; none if that is too short for its distance. Whatever the
      tables hold, a match is a copy of earlier input. */
  method SmallMatch(input: seq<byte>, pos: nat, base0: nat, prev: seq<nat>, mask: nat, chain0: nat, longEnough: nat)
      returns (len: nat, off: nat, ghost best: nat, ghost seen: seq<nat>)
    requires HASH_CKOFFSET <= base0 && base0 - HASH_CKOFFSET < pos < |input| && |prev| == mask + 1 && 0 < chain0
    ensures Walked(input, pos, base0 - HASH_CKOFFSET, prev, mask, chain0, longEnough, seen, best, off)
    ensures len == if TooFar(best, pos - off) then 0 else best
    ensures len > 0 ==> forall env: Env :: Reproduces(env, input, RInst(CPY, 0, pos, len, off))
  {
    hide Same, Chain, Best, Agreement, Previous, Reproduces, TooFar, Ends, Short, Waiting, Walked;
    var base: nat, chain: nat := base0 - HASH_CKOFFSET, chain0;
    len, off, seen := 0, 0, [];
    ghost var all, rest := Chain(prev, mask, base, pos, chain), Chain(prev, mask, base, pos, chain);
    NoneSeen(input, pos, longEnough);
    while true
      invariant base < pos && 0 < chain && Best(input, pos, seen, len, off) && Short(input, pos, seen, longEnough)
      invariant (forall i | 0 <= i < |seen| :: base <= seen[i]) && Waiting(input, pos, len, longEnough)
      invariant all == seen + rest && rest == Chain(prev, mask, base, pos, chain)
      decreases chain
    {
      var cmpLen := Extend(input, base, pos);
      NextSeen(input, pos, seen, len, off, base, prev, mask, chain, longEnough);
      seen, rest := seen + [base], Behind(prev, mask, base, pos, chain);
      if cmpLen > len {
        len, off := cmpLen, base;
        if pos + cmpLen == |input| || cmpLen >= longEnough {
          break;
        }
      }
      chain := chain - 1;
      var p := Previous(prev, mask, base, pos);
      if chain == 0 || p < 0 {
        break;
      }
      base := p;
    }
    best := len;
    WalkDone(input, pos, base0 - HASH_CKOFFSET, prev, mask, chain0, longEnough, seen, len, off);
    Found(input, pos, seen, len, off);
    Far(len, pos - off);
    if len == 4 && pos - off >= 0x4000 {
      len := 0;
    } else if len == 5 && pos - off >= 0x20_0000 {
      len := 0;
    }
  }

  /** The best so far does not end the walk. */
  ghost predicate Waiting(input: seq<byte>, pos: nat, len: nat, longEnough: nat) {
    len == 0 || (len < longEnough && pos + len < |input|)
  }

  lemma Far(len: nat, dist: int)
    ensures TooFar(len, dist) <==> (len == 4 && dist >= 0x4000) || (len == 5 && dist >= 0x20_0000)
    ensures !TooFar(0, dist)
  {
  }

  /** The candidates behind the first. */
  ghost function Behind(prev: seq<nat>, mask: nat, base: nat, pos: nat, n: nat): seq<nat>
    requires |prev| == mask + 1 && 0 < n
  {
    var p := Previous(prev, mask, base, pos);
    if p < 0 then [] else Chain(prev, mask, p, pos, n - 1)
  }

  lemma NoneSeen(input: seq<byte>, pos: nat, longEnough: nat)
    ensures Best(input, pos, [], 0, 0) && Short(input, pos, [], longEnough) && Waiting(input, pos, 0, longEnough)
  {
  }

  lemma NextSeen(input: seq<byte>, pos: nat, seen: seq<nat>, len: nat, off: nat, base: nat, prev: seq<nat>, mask: nat, n: nat,
                 longEnough: nat)
    requires Best(input, pos, seen, len, off) && base < pos <= |input| && |prev| == mask + 1 && 0 < n
    requires (forall i | 0 <= i < |seen| :: base <= seen[i]) && Short(input, pos, seen, longEnough)
    requires Waiting(input, pos, len, longEnough)
    ensures (seen + [base])[..|seen|] == seen && (seen + [base])[|seen|] == base
    ensures var m := Agreement(input, base, pos);
      if m > len && (pos + m == |input| || m >= longEnough) then Ends(input, base, pos, longEnough)
      else Short(input, pos, seen + [base], longEnough) && Waiting(input, pos, Max(m, len), longEnough)
    ensures var m := Agreement(input, base, pos);
      if m > len then Best(input, pos, seen + [base], m, base) else Best(input, pos, seen + [base], len, off)
    ensures seen + Chain(prev, mask, base, pos, n) == seen + [base] + Behind(prev, mask, base, pos, n)
    ensures Previous(prev, mask, base, pos) <= base
    ensures n == 1 ==> Behind(prev, mask, base, pos, n) == []
  {
    hide Agreement, Previous, Chain, Best;
    PreviousBelow(prev, mask, base, pos);
    NextBest(input, pos, seen, len, off, base);
    NextInChain(seen, base, prev, mask, pos, n);
  }

  lemma NextBest(input: seq<byte>, pos: nat, seen: seq<nat>, len: nat, off: nat, base: nat)
    requires Best(input, pos, seen, len, off) && base < pos <= |input| && forall i | 0 <= i < |seen| :: base <= seen[i]
    ensures var m := Agreement(input, base, pos);
      if m > len then Best(input, pos, seen + [base], m, base) else Best(input, pos, seen + [base], len, off)
  {
    hide Agreement;
  }

  lemma NextInChain(seen: seq<nat>, base: nat, prev: seq<nat>, mask: nat, pos: nat, n: nat)
    requires |prev| == mask + 1 && 0 < n
    ensures seen + Chain(prev, mask, base, pos, n) == seen + [base] + Behind(prev, mask, base, pos, n)
    ensures n == 1 ==> Behind(prev, mask, base, pos, n) == []
  {
    hide Previous;
    var rest := Behind(prev, mask, base, pos, n);
    assert Chain(prev, mask, base, pos, n) == [base] + rest;
    assert seen + ([base] + rest) == seen + [base] + rest;
  }

  lemma WalkDone(input: seq<byte>, pos: nat, base: nat, prev: seq<nat>, mask: nat, chain: nat, longEnough: nat,
                 seen: seq<nat>, best: nat, off: nat)
    requires |prev| == mask + 1 && base < pos <= |input| && seen != [] && Best(input, pos, seen, best, off)
    requires seen <= Chain(prev, mask, base, pos, chain) && Short(input, pos, seen[..|seen| - 1], longEnough)
    requires Ends(input, seen[|seen| - 1], pos, longEnough) || seen == Chain(prev, mask, base, pos, chain)
    ensures Walked(input, pos, base, prev, mask, chain, longEnough, seen, best, off)
  {
  }

  lemma PreviousBelow(prev: seq<nat>, mask: nat, base: nat, pos: nat)
    requires |prev| == mask + 1
    ensures Previous(prev, mask, base, pos) <= base
  {
  }

  lemma Found(input: seq<byte>, pos: nat, seen: seq<nat>, len: nat, off: nat)
    requires Best(input, pos, seen, len, off)
    ensures len > 0 ==> pos + len <= |input| && forall env: Env :: Reproduces(env, input, RInst(CPY, 0, pos, len, off))
  {
    hide Same;
  }

  /** Expand potential match forward. */
  method Extend(input: seq<byte>, base: nat, pos: nat) returns (n: nat)
    requires base < pos <= |input|
    ensures n == Agreement(input, base, pos)
  {
    n := 0;
    while pos + n < |input| && input[pos + n] == input[base + n]
      invariant pos + n <= |input| && Agreement(input, base, pos) == n + Agreement(input, base + n, pos + n)
    {
      n := n + 1;
    }
  }
}
