/** The search loop of the encoder: runs, source matches and target matches, found
    through hash tables, with lazy matching. */
module StringMatch {
  import opened Bytes
  import opened Delta
  import opened Window
  import opened Iopt
  import opened SourceMatch
  import SourceFiles
  import opened TargetMatch

  const MIN_RUN := 8

  /** `xd3_smatcher`; `doLarge` if there is a source. */
  datatype Config = Config(doSmall: bool, doLarge: bool, largeLook: nat, largeStep: nat, smallLook: nat,
                           smallChain: nat, smallLchain: nat, maxLazy: nat, longEnough: nat, sprevmask: nat)
  {
    predicate Valid() {
      MIN_MATCH <= largeLook && 0 < largeStep && MIN_MATCH <= smallLook && 0 < smallChain && 0 < smallLchain
    }
  }

  /** `xd3_source_cksum_offset`: the table keeps 32 bits of a position that was
      indexed before `scp`. */
  function CksumOffset(scp: nat, low: nat): (r: nat)
    requires low < USIZE_LIMIT
    ensures r % USIZE_LIMIT == low && (scp < USIZE_LIMIT ==> r == low) && (scp >= USIZE_LIMIT ==> r <= scp)
  {
    var s0, sr := scp / USIZE_LIMIT, scp % USIZE_LIMIT;
    if s0 == 0 then low
    else if low > sr then (s0 - 1) * USIZE_LIMIT + low
    else s0 * USIZE_LIMIT + low
  }

  /** A position indexed before `scp`, and less than 2^32 before it, is found again. */
  lemma CksumOffsetFinds(scp: nat, p: nat)
    requires p < scp && scp - p < USIZE_LIMIT
    ensures CksumOffset(scp, p % USIZE_LIMIT) == p
  {
  }

  /** The last `l` of the `look` bytes from `pos` on are all `c`. */
  ghost predicate RunSeen(input: seq<byte>, pos: nat, look: nat, l: nat, c: byte) {
    pos + look <= |input| && forall k: nat | look - Min(l, look) <= k < look :: RunAt(input, pos, c, k)
  }

  /** The next byte, `restartloop`, or `loopnomore`. */
  datatype After = OneOn | Anew | Stop

  /** What the search at one position starts from and what it leaves. */
  datatype View = View(pos: nat, minMatch: nat, found: seq<RInst>, gone: seq<RInst>, unencoded: nat,
                       small: seq<nat>, prev: seq<nat>, large: seq<nat>, cksumPos: nat, lastSrcpos: nat,
                       decided: bool, srcbase: nat, srclen: nat)

  /** What was seen at one position: the length of the run; in the source, the slot of the
      table, whether a block was out of reach, the bytes matched back and forward, and the
      length if it was enough; in the input, the slot, the candidates, and the best of
      them; and the length of what was recorded. */
  datatype Trial = Trial(run: nat, large: Large, small: Small, len: nat)
  datatype Large = Large(slot: nat, tooFar: bool, back: nat, fwd: nat, len: nat)
  datatype Small = Small(slot: nat, seen: seq<nat>, best: nat, off: nat)

  /** One position. */
  datatype Visit = Visit(v: View, l: nat, c: byte, t: Trial, next: After, v': View)

  /** A search: where it starts, with what match, and what became of that; then the
      positions visited, and the end. */
  datatype Course = Course(v0: View, state: MatchState, at: nat, max: nat, x: Large, mid: View, xs: seq<Visit>, v: View)

  const NO_LARGE := Large(0, false, 0, 0, 0)
  const NO_SMALL := Small(0, [], 0, 0)

  /** What a search never changes. */
  datatype Setting = Setting(S: seq<byte>, input: seq<byte>, ioptSize: nat, maxWinsize: nat, prompt: bool, cfg: Config)
  {
    /** Exactly `n` bytes from `pos` on are `c`. */
    ghost predicate RunIs(pos: nat, c: byte, n: nat) {
      && pos + n <= |input| && (forall k: nat | k < n :: RunAt(input, pos, c, k))
      && (pos + n == |input| || input[pos + n] != c)
    }

    /** `r` goes to the end of the list `l`. */
    ghost predicate Adds(v: View, l: seq<RInst>, r: RInst, v': View) {
      Grown(l, v.gone, r, ioptSize, v'.found, v'.gone)
    }

    ghost predicate Nothing(v: View, v': View) {
      v'.found == v.found && v'.gone == v.gone
    }

    ghost predicate SmallKept(v: View, v': View) {
      v'.small == v.small && v'.prev == v.prev
    }

    ghost predicate LargeKept(v: View, v': View) {
      v'.large == v.large && v'.cksumPos == v.cksumPos
    }

    /** A position of the source that is not tried: the same again, too far back, or
        outside the source window. */
    predicate Refused(v: View, at: nat, cksumPos: nat) {
      || (at != 0 && at == v.lastSrcpos) || (at < cksumPos && cksumPos - at > maxWinsize)
      || (v.decided && (at < v.srcbase || at > v.srcbase + v.srclen))
    }

    /** Going back ends at what is encoded, at the start of the source or of its window, or
        where the bytes differ. */
    predicate BackStops(v: View, at: nat, b: nat) {
      || b == Min(v.pos - v.unencoded, at - if v.decided then v.srcbase else 0)
      || (b < v.pos <= |input| && b < at <= |S| && input[v.pos - b - 1] != S[at - b - 1])
    }

    /** Going forward ends at the end of the input, of the source or of its window, or
        where the bytes differ. */
    predicate FwdStops(v: View, at: nat, f: nat) {
      || v.pos + f == |input| || at + f == |S| || (v.decided && at + f == v.srcbase + v.srclen)
      || (v.pos + f < |input| && at + f < |S| && input[v.pos + f] != S[at + f])
    }

    /** A match extended as far as it goes, or to a block out of reach. */
    ghost predicate Matched(v: View, at: nat, x: Large) {
      && Equal(S, input, v.pos, at, x.back, x.fwd) && (prompt ==> !x.tooFar)
      && (!x.tooFar ==> BackStops(v, at, x.back) && FwdStops(v, at, x.fwd))
      && x.len == if x.fwd >= v.minMatch then x.fwd else 0
    }

    /** A match is recorded in place of the instructions it covers. */
    ghost predicate TakenFrom(v: View, at: nat, x: Large, v': View) {
      && x.back <= v.pos && x.back <= at
      && Adds(v, Erased(v.found, v.pos - x.back), RInst(CPY, 1, v.pos - x.back, x.back + x.fwd, at - x.back), v')
    }

    /** A match that ended at the end of the last window goes on at the start of this one,
        if it may. */
    ghost predicate Carried(v: View, at: nat, x: Large, v': View) {
      && x.back == 0 && Equal(S, input, v.pos, at, 0, x.fwd) && (prompt ==> !x.tooFar)
      && (if Refused(v, at, v.cksumPos) then x.fwd == 0 else !x.tooFar ==> FwdStops(v, at, x.fwd))
      && x.len == (if x.fwd >= v.minMatch then x.fwd else 0) && Resumed(v, at, x, v')
    }

    /** A match in progress is brought to its end. */
    ghost predicate Ended(v: View, at: nat, max: nat, x: Large, v': View) {
      && Equal(S, input, v.pos, at, x.back, x.fwd) && (prompt ==> !x.tooFar)
      && (!x.tooFar ==> x.fwd == max || FwdStops(v, at, x.fwd))
      && x.len == (if x.fwd >= v.minMatch then x.fwd else 0) && Resumed(v, at, x, v')
    }

    ghost predicate Resumed(v: View, at: nat, x: Large, v': View) {
      && v'.pos == v.pos + x.len && v'.minMatch == v.minMatch && SmallKept(v, v') && LargeKept(v, v')
      && if x.len == 0 then Nothing(v, v') else TakenFrom(v, at, x, v')
    }

    /** What became of the source at `at`. */
    ghost predicate TriedAt(v: View, at: nat, x: Large, v': View) {
      && (if Refused(v, at, v'.cksumPos) then x.len == 0 else Matched(v, at, x))
      && if x.len == 0 then Nothing(v, v')
         else TakenFrom(v, at, x, v')
    }

    /** The slot of the large table, and what became of the position in it. */
    ghost predicate LargeTried(v: View, x: Large, v': View) {
      && Indexed(v.large, v'.large) && x.slot < |v'.large| && v'.large[x.slot] < USIZE_LIMIT
      && if v'.large[x.slot] == 0 then x.len == 0 && Nothing(v, v')
         else TriedAt(v, CksumOffset(v'.cksumPos, v'.large[x.slot] - 1), x, v')
    }

    /** The small table gets the position; `n` bytes match after the walk along the chain of
        its slot. */
    ghost predicate SmallSeen(v: View, x: Small, n: nat, v': View) {
      && x.slot < |v.small| && |v.prev| == cfg.sprevmask + 1
      && v'.small == v.small[x.slot := v.pos + HASH_CKOFFSET] && v'.prev == v.prev[v.pos % (cfg.sprevmask + 1) := v.small[x.slot]]
      && if v.small[x.slot] == 0 then n == 0
         else
           var chain := if v.minMatch == MIN_MATCH then cfg.smallChain else cfg.smallLchain;
           && n == (if TooFar(x.best, v.pos - x.off) then 0 else x.best)
           && Walked(input, v.pos, v.small[x.slot] - HASH_CKOFFSET, v.prev, cfg.sprevmask, chain, cfg.longEnough, x.seen, x.best, x.off)
    }

    /** A copy is recorded if it is long enough. */
    ghost predicate SmallTried(v: View, x: Small, len: nat, v': View) {
      exists n :: SmallSeen(v, x, n, v') && SmallTaken(v, x, n, len, v')
    }

    ghost predicate SmallTaken(v: View, x: Small, n: nat, len: nat, v': View) {
      if n >= v.minMatch then len == n && Adds(v, v.found, RInst(CPY, 0, v.pos, n, x.off), v') else len == 0 && Nothing(v, v')
    }

    predicate InLarge(pos: nat) {
      cfg.doLarge && pos + cfg.largeLook <= |input|
    }

    /** A run is recorded if it is long enough, looked at from its beginning. */
    ghost predicate RunTried(v: View, l: nat, c: byte, t: Trial, len: nat, v': View) {
      && (if l == cfg.smallLook then RunIs(v.pos, c, t.run) else t.run == l)
      && if l == cfg.smallLook && t.run >= v.minMatch && t.run >= MIN_RUN
         then len == t.run && Adds(v, v.found, RInst(RUN, c, v.pos, t.run, 0), v')
         else len == 0 && Nothing(v, v')
    }

    /** The three kinds of match in order: the next is looked for if there is none of the
        one before. */
    ghost predicate Tried(v: View, l: nat, c: byte, t: Trial, v': View) {
      if l == cfg.smallLook && t.run >= v.minMatch && t.run >= MIN_RUN
      then RunTried(v, l, c, t, t.len, v') && SmallKept(v, v') && LargeKept(v, v')
      else
        && (if l == cfg.smallLook then RunIs(v.pos, c, t.run) else t.run == l)
        && (!InLarge(v.pos) ==> t.large.len == 0 && LargeKept(v, v'))
        && if t.large.len > 0 then LargeTried(v, t.large, v') && t.len == t.large.len && SmallKept(v, v')
           else
             && (InLarge(v.pos) ==> LargeTried(v, t.large, v'.(found := v.found, gone := v.gone)))
             && if cfg.doSmall then SmallTried(v, t.small, t.len, v')
                else t.len == 0 && Nothing(v, v') && SmallKept(v, v')
    }

    /** TRYLAZYLEN: a short match may be followed by a longer one. */
    predicate Lazy(len: nat, pos: nat) {
      cfg.maxLazy > 0 && len < cfg.maxLazy && pos + len <= |input| - 2
    }

    /** Where the search goes on: behind a match that is not followed by a lazy one, else
        one byte on, with a shorter match wanted each time. */
    predicate Moved(v: View, len: nat, next: After, v': View) {
      if len > 0 && !Lazy(len, v.pos) then next == Anew && v'.pos == v.pos + len && v'.minMatch == v.minMatch
      else
        && v'.minMatch == (if len > 0 then len else if v.minMatch > MIN_MATCH then v.minMatch - 1 else v.minMatch)
        && if v.pos + cfg.smallLook == |input| then next == Stop && v'.pos == v.pos
           else next == OneOn && v'.pos == v.pos + 1
    }

    ghost predicate Visited(x: Visit) {
      Tried(x.v, x.l, x.c, x.t, x.v') && Moved(x.v, x.t.len, x.next, x.v')
    }

    /** The run at the end of the bytes looked at. */
    ghost predicate RunEnds(pos: nat, l: nat, c: byte) {
      && RunSeen(input, pos, cfg.smallLook, l, c) && 0 < l <= cfg.smallLook
      && (l == cfg.smallLook || input[pos + cfg.smallLook - l - 1] != c)
    }

    /** One byte later: longer by one, or a new one. */
    predicate RunNext(pos: nat, l: nat, c: byte, l': nat, c': byte) {
      && pos + cfg.smallLook < |input| && c' == input[pos + cfg.smallLook]
      && l' == if c' == c then l + 1 else 1
    }

    /** A match must end behind the last one. */
    function Least(v: View): nat {
      var last := if v.found == [] then 0 else End(v.found[|v.found| - 1]);
      if last > v.pos then Max(MIN_MATCH, 1 + last - v.pos) else MIN_MATCH
    }

    /** `restartloop`: the state of the loop is made anew. */
    ghost predicate Restarted(v: View, v': View, l: nat, c: byte) {
      && v' == v.(minMatch := Least(v), large := v'.large, cksumPos := v'.cksumPos) && RunEnds(v.pos, l, c)
      && Indexed(v.large, v'.large) && (!InLarge(v.pos) ==> LargeKept(v, v'))
    }

    ghost predicate Follows(x: Visit, y: Visit) {
      && x.next != Stop
      && if x.next == OneOn then y.v == x.v' && RunNext(x.v.pos, x.t.run, x.c, y.l, y.c) else Restarted(x.v', y.v, y.l, y.c)
    }

    /** A search from `v` to `v'`, position by position. */
    ghost predicate Trail(v: View, xs: seq<Visit>, v': View) {
      if xs == [] then v' == v
      else
        && (forall i | 0 <= i < |xs| :: Visited(xs[i])) && (forall i | 0 < i < |xs| :: Follows(xs[i - 1], xs[i]))
        && Restarted(v, xs[0].v, xs[0].l, xs[0].c) && xs[|xs| - 1].v' == v'
    }

    lemma SlotEmpty(v: View, x: Large, v': View)
      requires Indexed(v.large, v'.large) && x.slot < |v'.large| && v'.large[x.slot] == 0 && x.len == 0 && Nothing(v, v')
      ensures LargeTried(v, x, v')
    {
    }

    lemma SlotTried(v: View, w: View, slot: nat, x: Large, v': View)
      requires w == v.(large := w.large, cksumPos := w.cksumPos) && LargeKept(w, v')
      requires Indexed(v.large, w.large) && slot < |w.large| && 0 < w.large[slot] < USIZE_LIMIT
      requires TriedAt(w, CksumOffset(w.cksumPos, w.large[slot] - 1), x, v')
      ensures LargeTried(v, x.(slot := slot), v')
    {
      hide Equal, Grown, Erased, CksumOffset;
    }

    lemma SmallIs(v: View, x: Small, n: nat, len: nat, w: View, v': View)
      requires SmallSeen(v, x, n, w) && SmallKept(w, v') && SmallTaken(v, x, n, len, v')
      ensures SmallTried(v, x, len, v')
    {
      hide Walked, SmallTaken, TooFar;
      assert SmallSeen(v, x, n, v');
    }

    lemma RefusedIs(v: View, at: nat, x: Large, v': View)
      requires Refused(v, at, v'.cksumPos) && x.len == 0 && Nothing(v, v')
      ensures TriedAt(v, at, x, v')
    {
    }

    lemma TriedIs(v: View, at: nat, x: Large, v': View)
      requires !Refused(v, at, v'.cksumPos) && Equal(S, input, v.pos, at, x.back, x.fwd) && (prompt ==> !x.tooFar)
      requires !x.tooFar ==> BackStops(v, at, x.back) && FwdStops(v, at, x.fwd)
      requires x.len == (if x.fwd >= v.minMatch then x.fwd else 0)
      requires x.len == 0 ==> Nothing(v, v')
      requires x.len > 0 ==> TakenFrom(v, at, x, v')
      ensures TriedAt(v, at, x, v')
    {
      hide Equal, TakenFrom, Refused, BackStops, FwdStops;
    }

    lemma TriedRun(v: View, l: nat, c: byte, t: Trial, v': View)
      requires l == cfg.smallLook && RunIs(v.pos, c, t.run) && SmallKept(v, v') && LargeKept(v, v') && t.large == NO_LARGE
      requires RunTried(v, l, c, Trial(t.run, NO_LARGE, NO_SMALL, t.len), t.len, v')
      ensures t.len != 0 ==> Tried(v, l, c, t, v')
      ensures t.len == 0 <==> !(t.run >= v.minMatch && t.run >= MIN_RUN)
    {
      hide RunIs, Adds;
    }

    lemma TriedLarge(v: View, l: nat, c: byte, t: Trial, v': View)
      requires if l == cfg.smallLook then RunIs(v.pos, c, t.run) && !(t.run >= v.minMatch && t.run >= MIN_RUN) else t.run == l
      requires InLarge(v.pos) && LargeTried(v, t.large, v') && SmallKept(v, v') && t.len == t.large.len
      ensures t.len != 0 ==> Tried(v, l, c, t, v')
      ensures t.len == 0 ==> Nothing(v, v')
    {
      hide RunIs, Adds, Matched, Refused;
    }

    lemma TriedLast(v: View, l: nat, c: byte, t: Trial, w: View, v': View)
      requires if l == cfg.smallLook then RunIs(v.pos, c, t.run) && !(t.run >= v.minMatch && t.run >= MIN_RUN) else t.run == l
      requires t.large.len == 0 && w.pos == v.pos && w.minMatch == v.minMatch && Nothing(v, w) && SmallKept(v, w) && LargeKept(w, v')
      requires if InLarge(v.pos) then LargeTried(v, t.large, w) else w == v
      requires if cfg.doSmall then SmallTried(w, t.small, t.len, v') else v' == w && t.len == 0
      ensures Tried(v, l, c, t, v')
    {
      hide RunIs, Matched, Refused, Walked, Grown, TooFar;
      if cfg.doSmall {
        var n :| SmallSeen(w, t.small, n, v') && SmallTaken(w, t.small, n, t.len, v');
        assert SmallSeen(v, t.small, n, v') && SmallTaken(v, t.small, n, t.len, v');
      }
    }

    lemma NoTrail(v: View)
      ensures Trail(v, [], v)
    {
    }

    lemma RestartedIs(v: View, v': View, l: nat, c: byte)
      requires v' == v.(minMatch := Least(v), large := v'.large, cksumPos := v'.cksumPos) && RunEnds(v.pos, l, c)
      requires Indexed(v.large, v'.large)
      requires !InLarge(v.pos) ==> LargeKept(v, v')
      ensures Restarted(v, v', l, c)
    {
    }

    /** The next position to be visited, and the run there. */
    ghost predicate Going(v0: View, xs: seq<Visit>, v: View, now: View, l: nat, c: byte) {
      if xs == [] then v == v0 && Restarted(v0, now, l, c)
      else
        var x := xs[|xs| - 1];
        x.next == OneOn && v == now == x.v' && RunNext(x.v.pos, x.t.run, x.c, l, c)
    }

    lemma TrailMore(v0: View, xs: seq<Visit>, v: View, x: Visit, l: nat, c: byte)
      requires Trail(v0, xs, v) && Visited(x) && Going(v0, xs, v, x.v, x.l, x.c)
      ensures Trail(v0, xs + [x], x.v')
      ensures x.next == OneOn && RunNext(x.v.pos, x.t.run, x.c, l, c) ==> Going(v0, xs + [x], x.v', x.v', l, c)
    {
      hide Visited, Restarted, RunNext;
    }

    lemma TrailJoined(v0: View, xs: seq<Visit>, v: View, ys: seq<Visit>, w: View)
      requires Trail(v0, xs, v) && Trail(v, ys, w) && (xs != [] ==> xs[|xs| - 1].next == Anew)
      ensures Trail(v0, xs + ys, w)
    {
      hide Visited, Restarted, RunNext;
      if xs == [] {
        assert xs + ys == ys;
      } else if ys == [] {
        assert xs + ys == xs;
      } else {
        var zs := xs + ys;
        forall i | 0 < i < |zs| ensures Follows(zs[i - 1], zs[i]) {
          if i > |xs| { assert Follows(ys[i - |xs| - 1], ys[i - |xs|]); }
        }
      }
    }

    /** A whole search: a match in progress, or from the last window, is brought to its end
        first. */
    ghost predicate Searched(c: Course) {
      if input == [] then c.xs == [] && c.v == c.mid == c.v0
      else
        && Trail(c.mid, c.xs, c.v) && Over(c.xs, c.v)
        && match c.state
           case TargetMatch => Carried(c.v0, c.at, c.x, c.mid)
           case Searching => c.mid == c.v0
           case _ => Ended(c.v0, c.at, c.max, c.x, c.mid)
    }

    /** It ends where no more bytes are to be looked at. */
    predicate Over(xs: seq<Visit>, v': View) {
      && (xs != [] ==> xs[|xs| - 1].next != OneOn)
      && if xs != [] && xs[|xs| - 1].next == Stop then v'.pos + cfg.smallLook == |input| else v'.pos + cfg.smallLook > |input|
    }
  }

  /** Every position from where a search starts to where it ends is visited, or lies
      behind the beginning of a match recorded at the last position visited before. */
  lemma {:induction false} TrailCovers(w: Setting, v: View, xs: seq<Visit>, v': View, p: nat)
    requires w.Trail(v, xs, v') && v.pos <= p < v'.pos
    ensures exists i :: 0 <= i < |xs| && xs[i].v.pos <= p < xs[i].v.pos + Max(1, xs[i].t.len)
  {
    hide Setting.Tried, Setting.RunNext, Setting.RunEnds, Indexed;
    var n := |xs| - 1;
    var x := xs[n];
    assert w.Visited(x);
    if p < x.v.pos {
      var ys := xs[..n];
      assert n > 0 ==> w.Follows(xs[n - 1], xs[n]);
      assert forall i | 0 < i < n :: w.Follows(ys[i - 1], ys[i]) by {
        assert forall i | 0 < i < n :: w.Follows(xs[i - 1], xs[i]);
      }
      TrailCovers(w, v, ys, ys[n - 1].v', p);
      var i :| 0 <= i < |ys| && ys[i].v.pos <= p < ys[i].v.pos + Max(1, ys[i].t.len);
      assert xs[i] == ys[i];
    }
  }

  /** A run that is long enough is found and recorded whole by a search that comes to its
      beginning. */
  lemma RunFound(w: Setting, v: View, x: Visit, c: byte, n: nat)
    requires w.Restarted(v, x.v, x.l, x.c) && w.Visited(x)
    requires w.RunIs(v.pos, c, n) && n >= x.v.minMatch && n >= MIN_RUN && n >= w.cfg.smallLook
    ensures x.t.len == n && Grown(v.found, v.gone, RInst(RUN, c, v.pos, n, 0), w.ioptSize, x.v'.found, x.v'.gone)
  {
    hide Setting.LargeTried, Setting.SmallTried, Setting.Least, Grown;
    var k := w.cfg.smallLook - x.l;
    assert RunAt(w.input, v.pos, c, k) && RunAt(w.input, v.pos, x.c, k);
    assert k > 0 ==> RunAt(w.input, v.pos, c, k - 1);
    assert x.t.run < n ==> RunAt(w.input, v.pos, c, x.t.run);
    assert n < x.t.run ==> RunAt(w.input, v.pos, x.c, n);
  }

  class Searcher {
    const m: Matcher
    const cfg: Config
    var smallTable: seq<nat>
    var smallPrev: seq<nat>
    var largeTable: seq<nat>

    /** The small table names earlier positions, the large one positions in the
        source; both offset by one. */
    ghost predicate TablesOk(pos: nat)
      reads this
    {
      && smallTable != [] && largeTable != [] && |smallPrev| == cfg.sprevmask + 1
      && (forall i | 0 <= i < |smallTable| :: smallTable[i] <= pos)
      && (forall i | 0 <= i < |largeTable| :: largeTable[i] <= |m.S| + 1 && largeTable[i] < USIZE_LIMIT)
    }

    ghost predicate Valid()
      reads this, m
    {
      m.Valid() && cfg.Valid() && TablesOk(m.inputPosition)
    }

    /** The same with the current position in the tables already. */
    ghost predicate Kept()
      reads this, m
    {
      m.Valid() && cfg.Valid() && TablesOk(m.inputPosition + 1)
    }

    function Set(): Setting {
      Setting(m.S, m.input, m.ioptSize, m.maxWinsize, m.prompt, cfg)
    }

    ghost function Now(): View
      reads this, m
    {
      View(m.inputPosition, m.minMatch, m.found, m.gone, m.unencoded, smallTable, smallPrev, largeTable, m.cksumPos, m.lastSrcpos,
                m.decided, m.srcbase, m.srclen)
    }

    /** No source, or all its blocks at hand, and room for all instructions: nothing
        can fail. */
    predicate Sure() {
      (m.prompt || !cfg.doLarge) && m.Roomy()
    }

    /** A search fails for want of a block, or if addresses do not fit 32 bits; and
        it goes wrong where a flush does. */
    ghost predicate Failing(ret: Ret)
      reads m`clash
    {
      && ret in {Zero, GetSrcBlk, Internal, Overlaps} && (ret == Internal ==> !m.prompt || |m.S| >= USIZE_LIMIT)
      && (ret == Overlaps ==> m.Clash() && !m.Roomy()) && (ret == GetSrcBlk ==> !m.prompt)
    }

    /** Nothing was copied from a source. */
    ghost predicate NoSource()
      reads m
    {
      m.minaddr == 0 && m.maxaddr == 0
    }

    /** Instructions found begin before the input position. */
    ghost predicate FoundBefore()
      reads m
    {
      m.found != [] ==> m.found[|m.found| - 1].pos < m.inputPosition
    }

    /** Where a search can start or go on. */
    ghost predicate Resumable()
      reads this, m
    {
      Valid() && FoundBefore() && (cfg.doLarge ==>
        match m.state
        case TargetMatch => m.Fresh() && m.MinMatchOk() && m.srcpos <= |m.S|
        case Forward => m.MatchOk() && m.MinMatchOk() && 0 < |m.input|
        case Backward => m.MatchOk() && m.MinMatchOk() && 0 < |m.input|
        case Searching => true)
    }

    /** The window has been searched to its end. */
    ghost predicate Done()
      reads this, m
    {
      Kept() && (cfg.doLarge ==> m.state == Searching || (m.state == TargetMatch && m.srcpos <= |m.S|))
    }

    lemma DoneIs()
      requires Done()
      ensures m.Valid()
    {
    }

    /** The first window. */
    constructor (m: Matcher, cfg: Config, smallSize: nat, largeSize: nat)
      requires m.Valid() && m.MinMatchOk() && m.Fresh() && m.state == TargetMatch && m.srcpos == 0
      requires cfg.Valid() && 0 < smallSize && 0 < largeSize
      ensures Resumable() && this.m == m && this.cfg == cfg
    {
      this.m, this.cfg := m, cfg;
      smallTable, largeTable := seq(smallSize, i => 0), seq(largeSize, i => 0);
      smallPrev := seq(cfg.sprevmask + 1, i => 0);
    }

    /** The next window: the small table is cleared. */
    constructor Next(m: Matcher, prev: Searcher)
      requires m.Valid() && m.MinMatchOk() && m.Fresh() && m.S == prev.m.S && prev.Done()
      requires m.state == prev.m.state && m.srcpos == prev.m.srcpos
      ensures Resumable() && this.m == m && cfg == prev.cfg
    {
      this.m, this.cfg := m, prev.cfg;
      smallTable, largeTable := seq(|prev.smallTable|, i => 0), prev.largeTable;
      smallPrev := prev.smallPrev;
    }

    /** ENC_SEARCH in `xd3_encode_input`: go on with a match in progress, or at the
        start of a window where the last match ended; then search. After
        XD3_GETSRCBLK it is entered again. */
    method Search() returns (ret: Ret, ghost c: Course)
      requires Resumable()
      modifies this, m
      ensures Sure() ==> ret == Zero && (old(NoSource()) && !cfg.doLarge ==> NoSource()) && m.decided == old(m.decided)
      ensures Failing(ret)
      ensures ret == GetSrcBlk ==> Resumable()
      ensures ret == Zero ==> Done()
      ensures c.v0 == old(Now()) && c.at == old(m.srcpos) && c.max == old(m.maxfwd) && c.state == if cfg.doLarge then old(m.state) else Searching
      ensures ret == Zero ==> c.v == Now() && Set().Searched(c)
      ensures m.input == [] && cfg.doLarge ==> m.state == if old(m.state) == TargetMatch then Searching else old(m.state)
      ensures ret != Zero && c.xs != [] ==> Set().Trail(c.mid, c.xs, c.v) && c.v.pos == m.inputPosition
    {
      hide Matcher.Valid, Matcher.MatchOk, TablesOk, Matcher.LimitsAre, Setting.Trail, Setting.Over, Setting.Carried, Setting.Ended,
        Setting.Refused, Setting.FwdStops, Setting.BackStops;
      c := Course(Now(), if cfg.doLarge then m.state else Searching, m.srcpos, m.maxfwd, NO_LARGE, Now(), [], Now());
      InInput();
      if cfg.doLarge {
        if |m.input| == 0 {
          if m.state == TargetMatch {
            m.state, m.fwd := Searching, 0;
          }
        } else if m.state != Searching {
          ghost var x;
          ret, x := Continue();
          if ret != Zero {
            return;
          }
          c := c.(x := x);
        }
      }
      c := c.(mid := Now(), v := Now());
      if |m.input| != 0 {
        ghost var xs, v;
        ret, xs, v := StringMatch();
        c := c.(xs := xs, v := v);
      } else {
        TablesLater(m.inputPosition);
        ret := Zero;
      }
    }

    lemma CarriedIs(v0: View, v: View, at: nat, max: nat, x: Large, v': View)
      requires Set().Ended(v, at, max, x, v') && v == v0.(lastSrcpos := at) && x.back == 0 && x.fwd <= max
      requires if Set().Refused(v0, at, v0.cksumPos) then max == 0 else at + max <= |m.S| ==> Set().FwdStops(v, at, max)
      ensures Set().Carried(v0, at, x, v')
    {
    }

    lemma InInput()
      requires m.Valid()
      ensures m.unencoded <= m.inputPosition <= |m.input| && |m.S| >= 0
      ensures m.Fresh() ==> m.inputPosition == 0
    {
    }

    /** A match that ended with the last window is set up again; then the match is brought
        to its end. */
    method Continue() returns (ret: Ret, ghost x: Large)
      requires Resumable() && cfg.doLarge && m.state != Searching && 0 < |m.input|
      modifies m
      ensures Failing(ret) && (m.Roomy() ==> ret in {Zero, GetSrcBlk})
      ensures Sure() ==> ret == Zero && m.decided == old(m.decided)
      ensures ret == GetSrcBlk ==> Resumable()
      ensures ret == Zero ==> Valid() && FoundBefore()
      ensures ret == Zero ==> m.state == Searching || (m.state == TargetMatch && m.inputPosition == |m.input| && m.srcpos <= |m.S|)
      ensures ret == Zero ==>
        if old(m.state) == TargetMatch then Set().Carried(old(Now()), old(m.srcpos), x, Now())
        else Set().Ended(old(Now()), old(m.srcpos), old(m.maxfwd), x, Now())
    {
      hide Matcher.Valid, Matcher.MatchOk, TablesOk, Matcher.LimitsAre, Setting.Carried, Setting.Ended, Setting.Refused, Setting.FwdStops;
      InInput();
      ghost var v0, at, start := Now(), m.srcpos, m.state == TargetMatch;
      if m.state == TargetMatch {
        ContinueAt();
      }
      ghost var v, max := Now(), m.maxfwd;
      ret, x := Resume();
      if ret == Zero && start { CarriedIs(v0, v, at, max, x, Now()); }
    }

    method ContinueAt()
      requires Valid() && m.Fresh() && m.MinMatchOk() && m.state == TargetMatch && m.srcpos <= |m.S| && 0 < |m.input|
      modifies m`maxback, m`maxfwd, m`back, m`fwd, m`state, m`srcpos, m`lastSrcpos
      ensures Valid() && m.MatchOk() && m.state == Forward && m.srcpos == old(m.srcpos) && m.back == 0
      ensures Now() == old(Now()).(lastSrcpos := m.srcpos)
      ensures if Set().Refused(old(Now()), m.srcpos, m.cksumPos) then m.maxfwd == 0
        else m.srcpos + m.maxfwd <= |m.S| ==> Set().FwdStops(Now(), m.srcpos, m.maxfwd)
    {
      hide Matcher.FoundOk, Matcher.SourceOk, Matcher.MatchOk;
      InInput();
      m.ContinueMatch(m.unencoded);
      m.EofIs();
    }

    /** The match in progress. */
    method Resume() returns (ret: Ret, ghost x: Large)
      requires Valid() && cfg.doLarge && m.MatchOk() && m.MinMatchOk() && (m.state == Forward || m.state == Backward)
      requires 0 < |m.input|
      modifies m
      ensures Failing(ret) && (m.Roomy() ==> ret in {Zero, GetSrcBlk})
      ensures Sure() ==> ret == Zero && m.decided == old(m.decided)
      ensures ret == GetSrcBlk ==> Resumable()
      ensures ret == Zero ==> Valid() && FoundBefore()
      ensures ret == Zero ==> m.state == Searching || (m.state == TargetMatch && m.inputPosition == |m.input| && m.srcpos <= |m.S|)
      ensures ret == Zero ==> Set().Ended(old(Now()), old(m.srcpos), old(m.maxfwd), x, Now()) && x.fwd <= old(m.maxfwd)
      ensures ret == Zero && old(m.state) == Forward ==> x.back == old(m.back)
    {
      hide Matcher.Valid, Matcher.MatchOk, Equal, Grown, Erased;
      ghost var v, at, tooFar, b, f := Now(), m.srcpos, false, 0, 0;
      ret, tooFar, b, f := m.Extend();
      x := Large(0, tooFar, b, f, m.fwd);
      if ret == Zero {
        EqualIn(v.pos, at, b, f);
        Advance(m.fwd);
      }
    }

    /** Move on behind what was found. */
    method Advance(n: nat)
      requires if n == 0 then Valid() else Kept() && m.Reaches(n)
      modifies m`inputPosition
      ensures Valid() && m.inputPosition == old(m.inputPosition) + n
      ensures n == 0 && old(FoundBefore()) ==> FoundBefore()
      ensures n > 0 ==> FoundBefore()
    {
      hide Matcher.FoundOk, Matcher.SourceOk;
      m.inputPosition := m.inputPosition + n;
    }

    /** `xd3_string_match`. */
    method StringMatch() returns (ret: Ret, ghost xs: seq<Visit>, ghost v: View)
      requires Valid() && FoundBefore() && (cfg.doLarge ==> AtEndOrSearching())
      modifies this, m
      ensures Sure() ==> ret == Zero && (old(NoSource()) && !cfg.doLarge ==> NoSource()) && m.decided == old(m.decided)
      ensures Failing(ret)
      ensures ret == GetSrcBlk ==> Resumable()
      ensures ret == Zero ==> Kept() && (cfg.doLarge ==> AtEndOrSearching())
      ensures Set().Trail(old(Now()), xs, v) && (ret != Zero ==> v.pos == m.inputPosition)
      ensures ret == Zero ==> v == Now() && Set().Over(xs, v)
    {
      hide Matcher.Valid, Matcher.MatchOk, TablesOk, AtEndOrSearching, Setting.Trail;
      xs, v := [], Now();
      Set().NoTrail(v);
      ghost var v0 := v;
      InInput();
      TablesLater(m.inputPosition);
      var again := true;
      while again && m.inputPosition + cfg.smallLook <= |m.input|
        invariant Kept() && (again ==> Valid() && FoundBefore()) && (cfg.doLarge ==> AtEndOrSearching())
        invariant Set().Trail(v0, xs, v) && v == Now()
        invariant xs != [] ==> xs[|xs| - 1].next == if again then Anew else Stop
        invariant !again ==> xs != [] && m.inputPosition + cfg.smallLook == |m.input|
        invariant Sure() ==> (old(NoSource()) && !cfg.doLarge ==> NoSource()) && m.decided == old(m.decided)
        decreases |m.input| - m.inputPosition + if again then 1 else 0
      {
        ghost var ys, w;
        ret, again, ys, w := Restart();
        Set().TrailJoined(v0, xs, v, ys, w);
        xs, v := xs + ys, w;
        if ret != Zero {
          return;
        }
      }
      ret := Zero;
    }

    /** A match reached the end of the input, or none is in progress. */
    ghost predicate AtEndOrSearching()
      reads m
    {
      m.state == Searching || (m.state == TargetMatch && m.inputPosition == |m.input| && m.srcpos <= |m.S|)
    }

    /** From `restartloop` on, until the loop is restarted or the input is used
        up. */
    method Restart() returns (ret: Ret, again: bool, ghost xs: seq<Visit>, ghost v: View)
      requires Valid() && FoundBefore() && (cfg.doLarge ==> AtEndOrSearching())
      requires m.inputPosition + cfg.smallLook <= |m.input|
      modifies this, m
      ensures Sure() ==> ret == Zero && (old(NoSource()) && !cfg.doLarge ==> NoSource()) && m.decided == old(m.decided)
      ensures Failing(ret)
      ensures ret == GetSrcBlk ==> Resumable()
      ensures ret == Zero ==> Kept() && (cfg.doLarge ==> AtEndOrSearching())
      ensures ret == Zero ==> m.inputPosition >= old(m.inputPosition)
      ensures again ==> ret == Zero && Valid() && FoundBefore() && m.inputPosition > old(m.inputPosition)
      ensures Set().Trail(old(Now()), xs, v) && (ret != Zero ==> v.pos == m.inputPosition)
      ensures ret == Zero ==> v == Now() && xs != [] && xs[|xs| - 1].next == if again then Anew else Stop
      ensures ret == Zero && !again ==> m.inputPosition + cfg.smallLook == |m.input|
    {
      hide Matcher.Valid, Matcher.MatchOk, TablesOk, Setting.Trail, Setting.Restarted, Setting.Visited, Setting.RunNext, Setting.Going,
        Resumable, AtEndOrSearching, Now, Setting.InLarge;
      var runL, runC, move;
      again, xs, v := false, [], Now();
      Set().NoTrail(v);
      ghost var v0 := v;
      ret, runL, runC, move := BeginLoop();
      GoingAt(v0, [], v0, runL, runC);
      if ret != Zero {
        return;
      }
      var next := OneOn;
      while next == OneOn
        invariant Set().Trail(v0, xs, v) && (next == OneOn ==> Set().Going(v0, xs, v, Now(), runL, runC))
        invariant next != OneOn ==> xs != [] && xs[|xs| - 1].next == next && v == Now()
        invariant next == Stop ==> m.inputPosition + cfg.smallLook == |m.input|
        invariant Kept() && m.inputPosition >= old(m.inputPosition) && (cfg.doLarge ==> AtEndOrSearching())
        invariant next == OneOn ==> Valid() && FoundBefore() && m.MinMatchOk() && (cfg.doLarge ==> m.state == Searching)
        invariant next == OneOn ==> RunSeen(m.input, m.inputPosition, cfg.smallLook, runL, runC)
        invariant Sure() ==> (old(NoSource()) && !cfg.doLarge ==> NoSource()) && m.decided == old(m.decided)
        invariant next == Anew ==> Valid() && FoundBefore() && m.inputPosition > old(m.inputPosition)
        decreases |m.input| - m.inputPosition, if next == OneOn then 1 else 0
      {
        RunInput(runL, runC);
        ghost var x;
        GoingAt(v0, xs, v, runL, runC);
        ret, next, runL, runC, move, x := Round(runL, runC, move);
        if ret != Zero {
          return;
        }
        Set().TrailMore(v0, xs, v, x, runL, runC);
        xs, v := xs + [x], Now();
      }
      ret, again := Zero, next == Anew;
    }

    /** The state of the loop, made anew. */
    method BeginLoop() returns (ret: Ret, runL: nat, runC: byte, move: nat)
      requires Valid() && FoundBefore() && (cfg.doLarge ==> AtEndOrSearching())
      requires m.inputPosition + cfg.smallLook <= |m.input|
      modifies this`largeTable
      modifies m`minMatch, m`cksumPos, m`curblkno, m`curblk, m`loaded, m`maxBlkno, m`onLastBlk, m`eofKnown
      ensures Valid() && Kept() && FoundBefore() && m.MinMatchOk() && (cfg.doLarge ==> m.state == Searching && AtEndOrSearching())
      ensures ret in {Zero, GetSrcBlk, Internal} && (m.prompt || !cfg.doLarge ==> ret == Zero) && (ret == GetSrcBlk ==> Resumable())
      ensures RunSeen(m.input, m.inputPosition, cfg.smallLook, runL, runC)
      ensures ret == Zero ==> Set().Restarted(old(Now()), Now(), runL, runC)
      ensures old(Now()).pos == m.inputPosition
    {
      hide Matcher.Valid, Matcher.MatchOk, TablesOk, Setting.Restarted, Setting.RunEnds, Setting.Least, IndexTarget, EnterAll, PassesOk,
        PassFrom;
      ghost var v0 := Now();
      ret, move := Zero, 0;
      LeastMatch();
      runL, runC := Comprun();
      EnterNone(largeTable);
      assert Indexed(v0.large, largeTable);
      if cfg.doLarge && m.inputPosition + cfg.largeLook <= |m.input| {
        ghost var passes;
        ret, move, passes := MovePoint();
        assert Indexed(v0.large, largeTable);
      }
      TablesLater(m.inputPosition);
      if ret == Zero { Set().RestartedIs(v0, Now(), runL, runC); }
    }

    lemma GoingAt(v0: View, xs: seq<Visit>, v: View, l: nat, c: byte)
      ensures Set().Going(v0, xs, v, Now(), l, c) ==> v.pos == m.inputPosition
      ensures xs == [] && v == v0 && Set().Restarted(v0, Now(), l, c) ==> Set().Going(v0, xs, v, Now(), l, c)
    {
    }

    lemma RunInput(l: nat, c: byte)
      ensures RunSeen(m.input, m.inputPosition, cfg.smallLook, l, c) ==> m.inputPosition + cfg.smallLook <= |m.input|
      ensures m.Valid() ==> m.inputPosition <= |m.input|
    {
    }

    /** One round of the loop over the input: look for matches, then handle a lazy
        one. */
    method Round(runL: nat, runC: byte, move: nat)
        returns (ret: Ret, next: After, runL': nat, runC': byte, move': nat, ghost x: Visit)
      requires Valid() && FoundBefore() && m.MinMatchOk() && (cfg.doLarge ==> m.state == Searching)
      requires RunSeen(m.input, m.inputPosition, cfg.smallLook, runL, runC)
      modifies this, m
      ensures Sure() ==> ret == Zero && (old(NoSource()) && !cfg.doLarge ==> NoSource()) && m.decided == old(m.decided)
      ensures Failing(ret)
      ensures ret == GetSrcBlk ==> Resumable()
      ensures ret == Zero ==> Kept() && (cfg.doLarge ==> AtEndOrSearching()) && old(m.inputPosition) <= m.inputPosition <= |m.input|
      ensures ret == Zero && next == OneOn ==>
        Valid() && FoundBefore() && m.MinMatchOk() && (cfg.doLarge ==> m.state == Searching)
        && RunSeen(m.input, m.inputPosition, cfg.smallLook, runL', runC')
      ensures ret == Zero && next != Stop ==> Valid() && FoundBefore() && m.inputPosition > old(m.inputPosition)
      ensures ret == Zero ==> x == Visit(old(Now()), runL, runC, x.t, next, Now()) && Set().Visited(x)
      ensures ret == Zero && next == OneOn ==> Set().RunNext(x.v.pos, x.t.run, runC, runL', runC')
      ensures ret == Zero && next == Stop ==> m.inputPosition + cfg.smallLook == |m.input|
      ensures ret != Zero ==> m.inputPosition == old(m.inputPosition)
    {
      hide Matcher.Valid, Matcher.MatchOk, TablesOk, RunSeen, Setting.Tried, Setting.RunNext;
      RunInput(runL, runC);
      next, runC' := Stop, runC;
      ghost var v, t := Now(), Trial(0, NO_LARGE, NO_SMALL, 0);
      var mlen;
      ret, mlen, runL', move', t := Try(runL, runC, move);
      x := Visit(v, runL, runC, t, next, v);
      if ret != Zero {
        return;
      }
      ghost var w := Now();
      next, runL', runC' := MoveOn(mlen, runL', runC);
      x := Visit(v, runL, runC, t, next, Now());
      VisitedIs(x, w);
    }

    /** HANDLELAZY, `updateone`, and one byte on. */
    method MoveOn(mlen: nat, runL: nat, runC: byte) returns (next: After, runL': nat, runC': byte)
      requires Kept() && if mlen == 0 then FoundBefore() && m.MinMatchOk() else m.Reaches(mlen)
      requires cfg.doLarge ==> m.state == Searching || (m.state == TargetMatch && m.inputPosition + mlen == |m.input| && m.srcpos <= |m.S|)
      requires RunSeen(m.input, m.inputPosition, cfg.smallLook, runL, runC) && m.inputPosition < |m.input|
      modifies m`inputPosition, m`minMatch
      ensures Kept() && (cfg.doLarge ==> AtEndOrSearching()) && old(m.inputPosition) <= m.inputPosition <= |m.input|
      ensures next == OneOn ==>
        Valid() && FoundBefore() && m.MinMatchOk() && (cfg.doLarge ==> m.state == Searching)
        && RunSeen(m.input, m.inputPosition, cfg.smallLook, runL', runC')
        && Set().RunNext(old(m.inputPosition), runL, runC, runL', runC')
      ensures next != Stop ==> Valid() && FoundBefore() && m.inputPosition > old(m.inputPosition)
      ensures Set().Moved(old(Now()), mlen, next, Now()) && (next == Stop ==> m.inputPosition + cfg.smallLook == |m.input|)
    {
      hide Matcher.Valid, Matcher.MatchOk, TablesOk, RunSeen, Setting.RunNext;
      RunInput(runL, runC);
      next, runL', runC' := Stop, runL, runC;
      InInput();
      if mlen == 0 {
        if m.minMatch > MIN_MATCH {
          m.minMatch := m.minMatch - 1;
        }
      } else if Set().Lazy(mlen, m.inputPosition) {
        m.minMatch := mlen;
      } else {
        Advance(mlen);
        TablesLater(m.inputPosition);
        InInput();
        next := Anew;
        return;
      }
      if m.inputPosition + cfg.smallLook != |m.input| {
        runL', runC' := NextRun(runL, runC);
        Step(mlen);
        TablesLater(m.inputPosition);
        InInput();
        next := OneOn;
      }
    }

    lemma VisitedIs(x: Visit, v: View)
      requires Set().Tried(x.v, x.l, x.c, x.t, v) && v == x.v'.(pos := v.pos, minMatch := v.minMatch)
      requires Set().Moved(x.v, x.t.len, x.next, x.v')
      ensures Set().Visited(x)
    {
      hide Setting.LargeTried, Setting.SmallTried, Setting.RunTried, Setting.RunIs;
      TriedParts(x, v);
    }

    lemma TriedParts(x: Visit, v: View)
      requires v == x.v'.(pos := v.pos, minMatch := v.minMatch)
      ensures forall y, n :: Set().SmallTried(x.v, y, n, v) == Set().SmallTried(x.v, y, n, x.v')
      ensures forall y :: Set().LargeTried(x.v, y, v) == Set().LargeTried(x.v, y, x.v')
      ensures var w, w' := v.(found := x.v.found, gone := x.v.gone), x.v'.(found := x.v.found, gone := x.v.gone);
        forall y :: Set().LargeTried(x.v, y, w) == Set().LargeTried(x.v, y, w')
      ensures forall t, n :: Set().RunTried(x.v, x.l, x.c, t, n, v) == Set().RunTried(x.v, x.l, x.c, t, n, x.v')
    {
      hide Setting.Refused, Setting.Matched, Setting.RunIs, Walked, Grown, Erased, CksumOffset, TooFar;
      forall y, n ensures Set().SmallTried(x.v, y, n, v) == Set().SmallTried(x.v, y, n, x.v') {
        if Set().SmallTried(x.v, y, n, v) { SmallLater(x.v, y, n, v, x.v'); }
        if Set().SmallTried(x.v, y, n, x.v') { SmallLater(x.v, y, n, x.v', v); }
      }
    }

    lemma SmallLater(v: View, y: Small, len: nat, w: View, w': View)
      requires w'.found == w.found && w'.gone == w.gone && w'.small == w.small && w'.prev == w.prev
      requires Set().SmallTried(v, y, len, w)
      ensures Set().SmallTried(v, y, len, w')
    {
      hide Walked, Grown, TooFar;
      var n :| Set().SmallSeen(v, y, n, w) && Set().SmallTaken(v, y, n, len, w);
      assert Set().SmallSeen(v, y, n, w') && Set().SmallTaken(v, y, n, len, w');
    }

    /** One byte on, after a match or after none. */
    method Step(mlen: nat)
      requires Kept() && m.inputPosition < |m.input| && MIN_MATCH <= m.minMatch
      requires mlen == 0 && m.found != [] ==>
        m.found[|m.found| - 1].pos < m.inputPosition && End(m.found[|m.found| - 1]) < m.inputPosition + 1 + m.minMatch
      requires mlen != 0 ==> m.Reaches(mlen) && m.minMatch == mlen
      modifies m`inputPosition
      ensures Valid() && FoundBefore() && m.MinMatchOk() && m.inputPosition == old(m.inputPosition) + 1
    {
      hide Matcher.FoundOk, Matcher.SourceOk;
      m.inputPosition := m.inputPosition + 1;
    }

    /** `xd3_comprun`. */
    method Comprun() returns (l: nat, c: byte)
      requires m.inputPosition + cfg.smallLook <= |m.input|
      ensures RunSeen(m.input, m.inputPosition, cfg.smallLook, l, c) && (0 < cfg.smallLook ==> Set().RunEnds(m.inputPosition, l, c))
    {
      l, c := 0, 0;
      for i := 0 to cfg.smallLook
        invariant l <= i && forall k: nat | i - l <= k < i :: RunAt(m.input, m.inputPosition, c, k)
        invariant (l == i || m.input[m.inputPosition + i - l - 1] != c) && (l == 0 ==> i == 0)
      {
        assert i > 0 ==> RunAt(m.input, m.inputPosition, c, i - 1);
        if m.input[m.inputPosition + i] == c { l := l + 1; } else { l, c := 1, m.input[m.inputPosition + i]; }
      }
    }

    /** NEXTRUN: the run as seen from the next position. */
    method NextRun(l: nat, c: byte) returns (l': nat, c': byte)
      requires RunSeen(m.input, m.inputPosition, cfg.smallLook, l, c) && m.inputPosition + cfg.smallLook < |m.input|
      ensures RunSeen(m.input, m.inputPosition + 1, cfg.smallLook, l', c')
      ensures Set().RunNext(m.inputPosition, l, c, l', c')
    {
      var x := m.input[m.inputPosition + cfg.smallLook];
      if x == c {
        l', c' := l + 1, c;
      } else {
        l', c' := 1, x;
      }
      ghost var next := m.inputPosition + 1;
      forall k: nat | cfg.smallLook - Min(l', cfg.smallLook) <= k < cfg.smallLook ensures RunAt(m.input, next, c', k) {
        assert k + 1 < cfg.smallLook ==> RunAt(m.input, m.inputPosition, c, k + 1);
      }
    }

    /** The three kinds of match at the current position, in order of expense;
        `mlen` is the length of what was found. */
    method Try(l: nat, c: byte, move: nat) returns (ret: Ret, mlen: nat, l': nat, move': nat, ghost t: Trial)
      requires Valid() && FoundBefore() && m.MinMatchOk() && (cfg.doLarge ==> m.state == Searching)
      requires RunSeen(m.input, m.inputPosition, cfg.smallLook, l, c)
      requires m.inputPosition < |m.input|
      modifies this, m
      ensures Sure() ==> ret == Zero && (old(NoSource()) && !cfg.doLarge ==> NoSource()) && m.decided == old(m.decided)
      ensures Failing(ret)
      ensures m.inputPosition == old(m.inputPosition) && m.minMatch == old(m.minMatch)
      ensures RunSeen(m.input, m.inputPosition, cfg.smallLook, l', c)
      ensures ret == GetSrcBlk ==> Resumable()
      ensures ret == Zero ==> Kept() && if mlen == 0 then FoundBefore() && m.MinMatchOk() else m.Reaches(mlen)
      ensures ret == Zero && cfg.doLarge ==>
        m.state == Searching || (m.state == TargetMatch && m.inputPosition + mlen == |m.input| && m.srcpos <= |m.S|)
      ensures ret == Zero ==> t.len == mlen && t.run == l' && Set().Tried(old(Now()), l, c, t, Now())
    {
      hide Matcher.Valid, Matcher.MatchOk, Matcher.Reaches, TablesOk, RunSeen, Setting.RunIs, Setting.Adds,
        Setting.LargeTried, Setting.SmallTried, Setting.Tried, Setting.RunTried, Resumable, NoSource, FoundBefore, Matcher.MinMatchOk;
      TablesLater(m.inputPosition);
      l', move' := l, move;
      mlen := 0;
      ghost var v, x, y := Now(), NO_LARGE, NO_SMALL;
      t := Trial(l, x, y, 0);
      if l == cfg.smallLook {
        ret, mlen, l' := TryRun(l, c);
        t := Trial(l', x, y, mlen);
        if ret != Zero {
          return;
        }
        Set().TriedRun(v, l, c, t, Now());
        if mlen != 0 {
          return;
        }
      }
      if cfg.doLarge && m.inputPosition + cfg.largeLook <= |m.input| {
        ret, mlen, move', x := TryLarge(move);
        t := Trial(l', x, y, mlen);
        TablesLater(m.inputPosition);
        if ret != Zero {
          return;
        }
        Set().TriedLarge(v, l, c, t, Now());
        if mlen != 0 {
          return;
        }
      }
      ghost var w := Now();
      if cfg.doSmall {
        ret, mlen, y := TrySmall();
        t := Trial(l', x, y, mlen);
      } else {
        ret := Zero;
      }
      if ret == Zero { Set().TriedLast(v, l, c, t, w, Now()); }
    }

    lemma TablesLater(pos: nat)
      ensures TablesOk(pos) ==> TablesOk(pos + 1)
    {
    }

    /** Expand a run, and emit it if it is long enough. */
    method TryRun(l: nat, c: byte) returns (ret: Ret, mlen: nat, l': nat)
      requires Valid() && FoundBefore() && m.MinMatchOk() && l == cfg.smallLook
      requires RunSeen(m.input, m.inputPosition, cfg.smallLook, l, c)
      modifies m`decided, m`srcbase, m`srclen, m`taroff, m`found, m`gone, m`unencoded, m`clash
      ensures m.Roomy() ==> ret == Zero && (old(NoSource()) ==> NoSource()) && m.decided == old(m.decided)
      ensures Failing(ret) && ret != GetSrcBlk && (m.Roomy() ==> ret == Zero)
      ensures RunSeen(m.input, m.inputPosition, cfg.smallLook, l', c)
      ensures ret == Zero ==> m.Valid()
      ensures ret == Zero ==> if mlen == 0 then FoundBefore() && m.MinMatchOk() else m.Reaches(mlen)
      ensures Set().RunIs(m.inputPosition, c, l')
      ensures ret == Zero ==> Set().RunTried(old(Now()), l, c, Trial(l', NO_LARGE, NO_SMALL, mlen), mlen, Now())
      ensures ret == Zero && mlen == 0 ==> Now() == old(Now())
    {
      hide Matcher.FoundOk, Matcher.SourceOk, Matcher.Reaches;
      var maxLen := |m.input| - m.inputPosition;
      l', mlen, ret := l, 0, Zero;
      while l' < maxLen && m.input[m.inputPosition + l'] == c
        invariant l <= l' <= maxLen && forall k: nat | k < l' :: RunAt(m.input, m.inputPosition, c, k)
      {
        l' := l' + 1;
      }
      if l' >= m.minMatch && l' >= MIN_RUN {
        var r := RInst(RUN, c, m.inputPosition, l', 0);
        RunSound(r);
        ret := m.FoundHere(r);
        mlen := l';
      }
    }

    lemma RunSound(r: RInst)
      requires m.Valid() && r.kind == RUN && 0 < r.size && End(r) <= |m.input|
      requires forall k: nat | k < r.size :: RunAt(m.input, r.pos, r.xtra, k)
      ensures m.minaddr <= m.maxaddr && Sound(m.S, m.input, r, m.minaddr, m.maxaddr)
    {
    }

    lemma CopySound(r: RInst)
      requires m.Valid() && r.kind == CPY && r.xtra == 0 && forall env: Env :: Reproduces(env, m.input, r)
      ensures m.minaddr <= m.maxaddr && Sound(m.S, m.input, r, m.minaddr, m.maxaddr)
    {
    }

    /** Look up the large checksum; whatever it names is tried. */
    method TryLarge(move: nat) returns (ret: Ret, mlen: nat, move': nat, ghost x: Large)
      requires Valid() && FoundBefore() && m.MinMatchOk() && cfg.doLarge && m.state == Searching
      requires m.inputPosition < |m.input|
      modifies this`largeTable, m
      ensures Sure() ==> ret == Zero && m.decided == old(m.decided)
      ensures Failing(ret)
      ensures m.inputPosition == old(m.inputPosition) && m.minMatch == old(m.minMatch)
      ensures ret == GetSrcBlk ==> Resumable()
      ensures ret == Zero ==> Valid() && if mlen == 0 then FoundBefore() && m.MinMatchOk() else m.Reaches(mlen)
      ensures ret == Zero ==>
        m.state == Searching || (m.state == TargetMatch && m.inputPosition + mlen == |m.input| && m.srcpos <= |m.S|)
      ensures ret == Zero ==> x.len == mlen && Set().LargeTried(old(Now()), x, Now())
      ensures ret == Zero && old(m.inputPosition) < move ==> move' == move && Set().LargeKept(old(Now()), Now())
    {
      hide Matcher.MatchOk, Matcher.FoundOk, Matcher.SourceOk, Matcher.Reaches, Setting.TriedAt, Setting.LargeTried, TablesOk, CksumOffset,
        Indexed, Resumable, Failing, Matcher.Valid, Valid;
      ghost var v0 := Now();
      mlen, move', x := 0, move, NO_LARGE;
      ret, move' := IndexMore(move);
      if ret != Zero {
        return;
      }
      var linx: nat := *;
      SlotIn(linx);
      linx := linx % |largeTable|;
      var v := largeTable[linx];
      if v == 0 {
        x := Large(linx, false, 0, 0, 0);
        Set().SlotEmpty(v0, x, Now());
        return Zero, 0, move', x;
      }
      ghost var mid := Now();
      ret, mlen, x := TryAt(CksumOffset(m.cksumPos, v - 1));
      if ret == Zero { Set().SlotTried(v0, mid, linx, x, Now()); }
      x := x.(slot := linx);
    }

    /** More of the source is indexed once the input position is far enough. */
    method IndexMore(move: nat) returns (ret: Ret, move': nat)
      requires Valid() && FoundBefore() && m.state == Searching
      modifies this`largeTable
      modifies m`cksumPos, m`curblkno, m`curblk, m`loaded, m`maxBlkno, m`onLastBlk, m`eofKnown
      ensures Valid() && (m.prompt ==> ret == Zero) && Failing(ret) && (ret == GetSrcBlk ==> Resumable())
      ensures Indexed(old(largeTable), largeTable)
      ensures old(m.inputPosition) < move ==> ret == Zero && move' == move && largeTable == old(largeTable) && m.cksumPos == old(m.cksumPos)
    {
      hide Matcher.FoundOk, Matcher.SourceOk, TablesOk, IndexTarget, EnterAll, PassesOk, PassFrom;
      EnterNone(largeTable);
      assert Indexed(largeTable, largeTable);
      ret, move' := Zero, move;
      if m.inputPosition >= move {
        ghost var passes;
        ret, move', passes := MovePoint();
      }
    }

    lemma SlotIn(i: nat)
      requires Valid()
      ensures largeTable != [] && largeTable[i % |largeTable|] < USIZE_LIMIT
      ensures var v := largeTable[i % |largeTable|]; v > 0 ==> CksumOffset(m.cksumPos, v - 1) <= |m.S|
    {
      hide Matcher.FoundOk, Matcher.SourceOk;
      m.EofIs();
    }

    /** Extend a match that starts at a position of the source. */
    method TryAt(at: nat) returns (ret: Ret, mlen: nat, ghost x: Large)
      requires Valid() && FoundBefore() && m.MinMatchOk() && cfg.doLarge && m.state == Searching
      requires m.inputPosition < |m.input| && at <= |m.S|
      modifies m
      ensures Sure() ==> ret == Zero && m.decided == old(m.decided)
      ensures Failing(ret)
      ensures m.inputPosition == old(m.inputPosition) && m.minMatch == old(m.minMatch)
      ensures ret == GetSrcBlk ==> Resumable()
      ensures ret == Zero ==> Valid() && if mlen == 0 then FoundBefore() && m.MinMatchOk() else m.Reaches(mlen)
      ensures ret == Zero ==>
        m.state == Searching || (m.state == TargetMatch && m.inputPosition + mlen == |m.input| && m.srcpos <= |m.S|)
      ensures ret == Zero ==> x.len == mlen && Set().TriedAt(old(Now()), at, x, Now()) && m.cksumPos == old(m.cksumPos)
    {
      hide Matcher.MatchOk, Matcher.FoundOk, Matcher.SourceOk, Matcher.Reaches, TablesOk, Matcher.BackEndsAt, Matcher.FwdEndsAt,
        Matcher.LimitsAre, Setting.BackStops, Setting.FwdStops, Equal, Grown, Erased, Matcher.Reaches, Setting.TriedAt;
      ghost var v := Now();
      InInput();
      var ok := m.MatchSetup(at, m.unencoded);
      if !ok {
        Set().RefusedIs(v, at, NO_LARGE, Now());
        return Zero, 0, NO_LARGE;
      }
      ghost var maxback, maxfwd := m.maxback, m.maxfwd;
      m.EofIs();
      Limited(v, at, maxback, maxfwd);
      ghost var tooFar, b, f;
      ret, tooFar, b, f := m.Extend();
      mlen := if ret == Zero then m.fwd else 0;
      x := Large(0, tooFar, b, f, mlen);
      if ret == Zero {
        EqualIn(v.pos, at, b, f);
        if !tooFar { Stops(v, at, maxback, maxfwd, b, f); }
        Set().TriedIs(v, at, x, Now());
      }
    }

    lemma EqualIn(pos: nat, at: nat, b: nat, f: nat)
      requires Equal(m.S, m.input, pos, at, b, f)
      ensures b <= pos && b <= at && pos + f <= |m.input| && at + f <= |m.S|
    {
    }

    /** The limits of a match are where it must stop. */
    lemma Limited(v: View, at: nat, maxback: nat, maxfwd: nat)
      requires v.pos == m.inputPosition && v.unencoded <= v.pos <= |m.input| && at <= |m.S|
      requires v.decided == m.decided && v.srcbase == m.srcbase && v.srclen == m.srclen
      requires (m.eofKnown ==> |m.S| <= m.Eof()) && m.LimitsAre(at, v.unencoded, maxback, maxfwd)
      ensures Set().BackStops(v, at, maxback) && (at + maxfwd <= |m.S| ==> Set().FwdStops(v, at, maxfwd))
    {
    }

    lemma Stops(v: View, at: nat, maxback: nat, maxfwd: nat, b: nat, f: nat)
      requires v.pos == m.inputPosition && m.BackEndsAt(at, b, maxback) && m.FwdEndsAt(at, f, maxfwd)
      requires Set().BackStops(v, at, maxback) && (at + maxfwd <= |m.S| ==> Set().FwdStops(v, at, maxfwd))
      requires at + f <= |m.S| && v.pos + f <= |m.input|
      ensures Set().BackStops(v, at, b) && Set().FwdStops(v, at, f)
    {
    }

    /** Look up the small checksum, enter the position, and emit a copy if it is
        long enough. */
    method TrySmall() returns (ret: Ret, mlen: nat, ghost x: Small)
      requires Valid() && FoundBefore() && m.MinMatchOk() && m.inputPosition < |m.input|
      modifies this`smallTable, this`smallPrev
      modifies m`decided, m`srcbase, m`srclen, m`taroff, m`found, m`gone, m`unencoded, m`clash
      ensures m.Roomy() ==> ret == Zero && (old(NoSource()) ==> NoSource()) && m.decided == old(m.decided)
      ensures Failing(ret) && ret != GetSrcBlk && (m.Roomy() ==> ret == Zero)
      ensures ret == Zero ==> Kept() && if mlen == 0 then FoundBefore() && m.MinMatchOk() else m.Reaches(mlen)
      ensures ret == Zero ==> Set().SmallTried(old(Now()), x, mlen, Now())
    {
      hide Matcher.FoundOk, Matcher.SourceOk, Matcher.Reaches, Sound, Reproduces, Grown, Setting.SmallTried, Setting.SmallSeen,
        TablesOk;
      ret, mlen := Zero, 0;
      ghost var v := Now();
      var length, off;
      length, off, x := LookUp();
      ghost var w := Now();
      if length >= m.minMatch {
        var r := RInst(CPY, 0, m.inputPosition, length, off);
        CopySound(r);
        ret := m.FoundHere(r);
        mlen := length;
      }
      if ret == Zero { Set().SmallIs(v, x, length, mlen, w, Now()); }
    }

    /** The best match of the input with itself; the position is entered in the table. */
    method LookUp() returns (length: nat, off: nat, ghost x: Small)
      requires Valid() && m.inputPosition < |m.input|
      modifies this`smallTable, this`smallPrev
      ensures TablesOk(m.inputPosition + 1) && Set().SmallSeen(old(Now()), x, length, Now())
      ensures length > 0 ==> off == x.off && forall env: Env :: Reproduces(env, m.input, RInst(CPY, 0, m.inputPosition, length, off))
    {
      hide Matcher.FoundOk, Matcher.SourceOk, Reproduces, Walked, TooFar;
      var sinx: nat := *;
      sinx := sinx % |smallTable|;
      x := Small(sinx, [], 0, 0);
      length, off := 0, 0;
      if smallTable[sinx] != 0 {
        var chain := if m.minMatch == MIN_MATCH then cfg.smallChain else cfg.smallLchain;
        ghost var best, seen;
        length, off, best, seen :=
          SmallMatch(m.input, m.inputPosition, smallTable[sinx], smallPrev, cfg.sprevmask, chain, cfg.longEnough);
        x := Small(sinx, seen, best, off);
      }
      smallPrev := smallPrev[m.inputPosition % (cfg.sprevmask + 1) := smallTable[sinx]];
      smallTable := smallTable[sinx := m.inputPosition + HASH_CKOFFSET];
    }

    /** How far the source is to be indexed: all of its window at first, later half a
        window and two blocks ahead of the input. */
    function IndexTarget(): (target: nat)
      requires 0 < m.blksize
      reads m`inputPosition
    {
      var absolute := m.totalIn + m.inputPosition;
      if absolute < m.maxWinsize / 2 then m.maxWinsize
      else
        var t := absolute + m.maxWinsize / 2 + m.blksize * 2;
        t - t % m.blksize
    }

    /** Where the pass over the source numbered `i` starts, if the first starts at `p`. */
    function PassFrom(p: nat, i: nat): nat
      requires 0 < m.blksize
    {
      if i == 0 then p else BlockStart(m.blksize, SourceFiles.BlksizeDiv(p, m.blksize).0 + i)
    }

    /** The rest of a block from `from` on, if it is long enough to be indexed at all. */
    ghost predicate PassOk(from: nat, x: Pass)
      requires 0 < m.blksize
    {
      var (n, off) := SourceFiles.BlksizeDiv(from, m.blksize);
      var size := |SourceFiles.Block(m.S, m.blksize, n)|;
      && x.lo == BlockStart(m.blksize, n) && |x.slots| == |x.at|
      && if size >= cfg.largeLook then StepsBack(x.at, size - cfg.largeLook, cfg.largeStep, off) else x.at == []
    }

    ghost predicate PassesOk(p: nat, target: nat, xs: seq<Pass>)
      requires 0 < m.blksize
    {
      forall i | 0 <= i < |xs| :: PassFrom(p, i) < target && PassOk(PassFrom(p, i), xs[i])
    }

    /** `xd3_srcwin_move_point`: index the source up to the target or its end, block by
        block. Under which checksums is left open. `next` is the input position at which
        to do it again. */
    method MovePoint() returns (ret: Ret, next: nat, ghost xs: seq<Pass>)
      requires Valid()
      modifies this`largeTable
      modifies m`cksumPos, m`curblkno, m`curblk, m`loaded, m`maxBlkno, m`onLastBlk, m`eofKnown
      ensures Valid() && ret in {Zero, GetSrcBlk, Internal} && (m.prompt ==> ret == Zero)
      ensures 0 < m.blksize && largeTable == EnterAll(old(largeTable), xs)
      ensures if old(m.eofKnown && m.cksumPos == m.Eof())
        then ret == Zero && next == USIZE_LIMIT - 1 && xs == [] && m.cksumPos == old(m.cksumPos)
        else
          var p := Max(old(m.cksumPos), old(m.maxsrcaddr));
          var target, q := Max(IndexTarget(), p), PassFrom(p, |xs|);
          && PassesOk(p, target, xs)
          && if ret != Zero then m.cksumPos == q
             else if m.eofKnown && q >= m.Eof() then m.cksumPos == m.Eof() && next == USIZE_LIMIT - 1
             else m.cksumPos == q >= target && next == m.inputPosition + m.blksize - (q - target) % m.blksize
    {
      hide Matcher.FoundOk, Matcher.SourceOk, SourceFiles.Block, SourceFiles.BlksizeDiv, BlockStart, IndexTarget, TablesOk,
        PassOk, PassesOk, PassFrom, EnterAll;
      m.EofIs();
      EnterNone(largeTable);
      next, xs := 0, [];
      if m.eofKnown && m.cksumPos == m.Eof() {
        return Zero, USIZE_LIMIT - 1, [];
      }
      var target := IndexTarget();
      if m.maxsrcaddr > m.cksumPos {
        m.cksumPos := m.maxsrcaddr;
      }
      target := Max(target, m.cksumPos);
      ret, xs := IndexTo(target);
      if ret != Zero {
        return;
      }
      m.EofIs();
      if m.eofKnown && m.cksumPos >= m.Eof() {
        m.cksumPos := m.Eof();
        return Zero, USIZE_LIMIT - 1, xs;
      }
      ret, next := Zero, m.inputPosition + m.blksize - (m.cksumPos - target) % m.blksize;
    }

    /** Its loop over blocks. */
    method IndexTo(target: nat) returns (ret: Ret, ghost xs: seq<Pass>)
      requires m.SourceOk() && cfg.Valid() && TablesOk(m.inputPosition) && m.maxsrcaddr <= m.cksumPos <= Max(|m.S|, m.blksize)
      modifies this`largeTable
      modifies m`cksumPos, m`curblkno, m`curblk, m`loaded, m`maxBlkno, m`onLastBlk, m`eofKnown
      ensures m.SourceOk() && TablesOk(m.inputPosition) && ret in {Zero, GetSrcBlk, Internal} && (m.prompt ==> ret == Zero)
      ensures 0 < m.blksize && largeTable == EnterAll(old(largeTable), xs) && PassesOk(old(m.cksumPos), target, xs)
      ensures old(m.cksumPos) <= m.cksumPos == PassFrom(old(m.cksumPos), |xs|)
      ensures ret == Zero ==> m.cksumPos >= target || (m.eofKnown && m.cksumPos >= m.Eof())
      ensures m.cksumPos <= Max(|m.S|, m.blksize) || (m.eofKnown && m.Eof() <= m.cksumPos)
      ensures ret != Zero ==> m.cksumPos <= Max(|m.S|, m.blksize)
    {
      hide Matcher.SourceOk, SourceFiles.Block, SourceFiles.BlksizeDiv, BlockStart, TablesOk, PassOk, PassesOk, PassFrom, EnterAll;
      m.EofIs();
      EnterNone(largeTable);
      xs := [];
      ghost var p := m.cksumPos;
      FirstPass(p, target);
      while m.cksumPos < target && (!m.eofKnown || m.cksumPos < m.Eof())
        invariant m.SourceOk() && TablesOk(m.inputPosition) && p <= m.cksumPos
        invariant m.cksumPos <= Max(|m.S|, m.blksize) || (m.eofKnown && m.Eof() <= m.cksumPos)
        invariant m.cksumPos == PassFrom(p, |xs|) && PassesOk(p, target, xs) && largeTable == EnterAll(old(largeTable), xs)
        decreases target - m.cksumPos
      {
        m.EofIs();
        ghost var x;
        ret, x := IndexBlock();
        if ret != Zero {
          return;
        }
        EnterMore(old(largeTable), xs, x);
        NextPass(p, target, xs, x);
        xs := xs + [x];
      }
      ret := Zero;
    }

    lemma FirstPass(p: nat, target: nat)
      requires 0 < m.blksize
      ensures PassFrom(p, 0) == p && PassesOk(p, target, [])
    {
    }

    lemma NextPass(p: nat, target: nat, xs: seq<Pass>, x: Pass)
      requires 0 < m.blksize && PassesOk(p, target, xs) && PassFrom(p, |xs|) < target && PassOk(PassFrom(p, |xs|), x)
      ensures BlockStart(m.blksize, SourceFiles.BlksizeDiv(PassFrom(p, |xs|), m.blksize).0 + 1) == PassFrom(p, |xs| + 1)
      ensures PassesOk(p, target, xs + [x])
    {
      hide PassOk;
      var i := |xs|;
      if i > 0 {
        var n := SourceFiles.BlksizeDiv(p, m.blksize).0 + i;
        Quotient(n * m.blksize, m.blksize, n);
      }
    }

    /** Index the rest of a block, from its end back. */
    method IndexBlock() returns (ret: Ret, ghost x: Pass)
      requires m.SourceOk() && cfg.Valid() && TablesOk(m.inputPosition) && m.cksumPos <= Max(|m.S|, m.blksize)
      modifies this`largeTable
      modifies m`cksumPos, m`curblkno, m`curblk, m`loaded, m`maxBlkno, m`onLastBlk, m`eofKnown
      ensures m.SourceOk() && TablesOk(m.inputPosition) && ret in {Zero, GetSrcBlk, Internal} && (m.prompt ==> ret == Zero)
      ensures ret != Zero ==> m.cksumPos == old(m.cksumPos) && largeTable == old(largeTable)
      ensures ret == Zero ==> 0 < m.blksize && old(m.cksumPos) < m.cksumPos
      ensures ret == Zero ==> m.cksumPos == BlockStart(m.blksize, SourceFiles.BlksizeDiv(old(m.cksumPos), m.blksize).0 + 1)
      ensures ret == Zero ==> PassOk(old(m.cksumPos), x) && largeTable == EnterOne(old(largeTable), x)
      ensures ret == Zero ==> m.cksumPos <= Max(|m.S|, m.blksize) || (m.eofKnown && m.Eof() <= m.cksumPos)
    {
      hide Matcher.SourceOk, SourceFiles.Block, SourceFiles.BlksizeDiv, BlockStart, TablesOk, Enter, StepsBack;
      m.EofIs();
      DivIs(m.cksumPos, m.blksize);
      var at := SourceFiles.BlksizeDiv(m.cksumPos, m.blksize);
      var blkno: nat, oldpos: nat := at.0, at.1;
      x := Pass(BlockStart(m.blksize, blkno), [], []);
      ret := m.GetBlk(blkno);
      if ret != Zero {
        ret := if ret == TooFarBack then Internal else ret;
        return;
      }
      BlockEnds(m.S, m.blksize, blkno);
      m.EofIs();
      StepForward(blkno, m.blksize);
      EnterNothing(largeTable, x.lo);
      if |m.curblk| >= cfg.largeLook {
        x := IndexBytes(BlockStart(m.blksize, blkno), oldpos);
      }
      m.cksumPos := BlockStart(m.blksize, blkno + 1);
    }

    /** Enter positions of the block at hand, which starts at `lo`: the last one with
        enough bytes behind it, and backwards in steps as far as `oldpos`. */
    method IndexBytes(lo: nat, oldpos: nat) returns (ghost x: Pass)
      requires cfg.Valid() && TablesOk(m.inputPosition) && cfg.largeLook <= |m.curblk| && lo + |m.curblk| <= |m.S|
      modifies this`largeTable
      ensures TablesOk(m.inputPosition) && x.lo == lo && |x.slots| == |x.at|
      ensures StepsBack(x.at, |m.curblk| - cfg.largeLook, cfg.largeStep, oldpos) && largeTable == EnterOne(old(largeTable), x)
    {
      hide Enter;
      var blkpos := |m.curblk| - cfg.largeLook;
      EnterNothing(largeTable, lo);
      ghost var at, slots: seq<nat> := [], [];
      var more := true;
      while more
        invariant TablesOk(m.inputPosition) && blkpos <= |m.curblk| - cfg.largeLook && |slots| == |at|
        invariant more ==> blkpos >= 0 && (at != [] ==> oldpos <= blkpos)
        invariant if at == [] then more && blkpos == |m.curblk| - cfg.largeLook
                  else at[0] == |m.curblk| - cfg.largeLook && blkpos == at[|at| - 1] - cfg.largeStep && (!more ==> blkpos < oldpos)
        invariant forall k | 0 < k < |at| :: at[k] == at[k - 1] - cfg.largeStep && oldpos <= at[k]
        invariant largeTable == Enter(old(largeTable), lo, at, slots)
        decreases blkpos, more
      {
        var hval: nat := *;
        var p := lo + blkpos + HASH_CKOFFSET;
        SmallerMod(p);
        EnterNext(old(largeTable), lo, at, slots, blkpos, hval);
        largeTable := largeTable[hval % |largeTable| := p % USIZE_LIMIT];
        at, slots := at + [blkpos], slots + [hval];
        blkpos := blkpos - cfg.largeStep;
        more := blkpos >= oldpos;
      }
      x := Pass(lo, at, slots);
    }

    /** The shortest match wanted after a restart goes past the last one. */
    method LeastMatch()
      requires Valid() && FoundBefore()
      modifies m`minMatch
      ensures Valid() && FoundBefore() && m.MinMatchOk() && m.minMatch == Set().Least(old(Now()))
    {
      hide Matcher.FoundOk, Matcher.SourceOk;
      var last := if m.found == [] then 0 else End(m.found[|m.found| - 1]);
      m.minMatch := if last > m.inputPosition then Max(MIN_MATCH, 1 + last - m.inputPosition) else MIN_MATCH;
    }
  }

  /** From `top` back in steps, as far as `floor`. */
  ghost predicate StepsBack(at: seq<nat>, top: nat, step: nat, floor: nat) {
    && at != [] && at[0] == top && at[|at| - 1] - step < floor
    && forall k | 0 < k < |at| :: at[k] == at[k - 1] - step && floor <= at[k]
  }

  /** Positions of a block entered in slots of the table, one after the other. */
  ghost function Enter(table: seq<nat>, lo: nat, at: seq<nat>, slots: seq<nat>): (t: seq<nat>)
    ensures |t| == |table|
  {
    if table == [] || at == [] || |slots| != |at| then table
    else
      var n := |at| - 1;
      Enter(table, lo, at[..n], slots[..n])[slots[n] % |table| := (lo + at[n] + HASH_CKOFFSET) % USIZE_LIMIT]
  }

  /** A block that starts at `lo`, the positions in it, and the slots for them. */
  datatype Pass = Pass(lo: nat, at: seq<nat>, slots: seq<nat>)

  ghost function EnterOne(table: seq<nat>, x: Pass): seq<nat> {
    Enter(table, x.lo, x.at, x.slots)
  }

  ghost function EnterAll(table: seq<nat>, xs: seq<Pass>): seq<nat> {
    if xs == [] then table else EnterOne(EnterAll(table, xs[..|xs| - 1]), xs[|xs| - 1])
  }

  lemma EnterNothing(table: seq<nat>, lo: nat)
    ensures Enter(table, lo, [], []) == table
  {
  }

  lemma EnterNext(table: seq<nat>, lo: nat, at: seq<nat>, slots: seq<nat>, p: nat, slot: nat)
    requires table != [] && |slots| == |at|
    ensures Enter(table, lo, at + [p], slots + [slot])
         == Enter(table, lo, at, slots)[slot % |table| := (lo + p + HASH_CKOFFSET) % USIZE_LIMIT]
  {
    assert (at + [p])[..|at|] == at && (slots + [slot])[..|at|] == slots;
  }

  lemma EnterNone(table: seq<nat>)
    ensures EnterAll(table, []) == table
  {
  }

  lemma EnterMore(table: seq<nat>, xs: seq<Pass>, x: Pass)
    ensures EnterAll(table, xs + [x]) == EnterOne(EnterAll(table, xs), x)
  {
    assert (xs + [x])[..|xs|] == xs;
  }

  /** More of the source has been indexed. */
  ghost predicate Indexed(table: seq<nat>, table': seq<nat>) {
    exists xs :: table' == EnterAll(table, xs)
  }

  lemma SmallerMod(p: nat)
    ensures p % USIZE_LIMIT <= p
  {
  }

  /** A block lies inside the source; a short one ends it. */
  lemma BlockEnds(S: seq<byte>, b: nat, n: nat)
    requires 0 < b
    ensures var size := |SourceFiles.Block(S, b, n)|;
      && size <= b && (0 < size ==> BlockStart(b, n) + size <= |S|) && (size < b ==> |S| < BlockStart(b, n) + b)
  {
    BlockSize(S, b, n);
  }
}
