/** How the encoder of the Huffman secondary compressor comes to groups: how many,
    of what sectors, and which sectors in which group. */
module GroupSearch {
  import opened Bytes
  import opened Options
  import opened Canonical
  import opened CodeTree
  import opened PrefixLengths
  import opened MoveToFront
  import opened Huffman
  import opened HuffmanGroups
  import opened HuffmanCodec
  import opened GroupFreqs
  import opened GroupsCodec

  const DJW_SECTORSZ_MAX := 160
  const DJW_MAX_ITER := 6
  const DJW_MIN_IMPROVEMENT := 20

  /** Which section is compressed. */
  datatype Kind = DataSection | InstSection | AddrSection

  datatype Sizes = InternalError | Sizes(groups: nat, size: nat)

  /** Groups and sector size by the size of the input. */
  function Suggested(kind: Kind, n: nat): (r: (nat, nat))
    ensures 1 <= r.0 <= DJW_MAX_GROUPS && (if r.0 == 1 then r.1 == 0 else SizeOk(r.1))
  {
    match kind
    case DataSection =>
      if n < 1000 then (1, 0) else if n < 4000 then (2, 10) else if n < 7000 then (3, 10) else if n < 10000 then (4, 10)
      else if n < 25000 then (5, 10) else if n < 50000 then (7, 20) else if n < 100000 then (8, 30) else (8, 70)
    case InstSection =>
      if n < 7000 then (1, 0) else if n < 10000 then (2, 50) else if n < 25000 then (3, 50) else if n < 50000 then (6, 40)
      else (8, 40)
    case AddrSection =>
      if n < 9000 then (1, 0) else if n < 25000 then (2, 130) else if n < 50000 then (3, 130) else if n < 100000 then (5, 130)
      else (7, 130)
  }

  /** What is configured, or else suggested; with several groups never no sector size. */
  function Configured(kind: Kind, ngroups: nat, sectorSize: nat, n: nat): (r: Sizes)
    ensures r.Sizes?
  {
    var s := Suggested(kind, n);
    var groups, size := if ngroups == 0 then s.0 else ngroups, if sectorSize == 0 then s.1 else sectorSize;
    Sizes(groups, if groups == 1 || size != 0 then size else match kind case DataSection => 20 case InstSection => 50 case AddrSection => 130)
  }

  /** `xd3_encode_howmany_groups`: zero leaves the choice to the encoder. With more
      than one group the sector size is one that can be written. */
  method HowManyGroups(kind: Kind, ngroups: nat, sectorSize: nat, n: nat) returns (r: Sizes)
    ensures r == InternalError <==> ngroups > DJW_MAX_GROUPS || (sectorSize != 0 && !SizeOk(sectorSize))
    ensures r.Sizes? ==> 1 <= r.groups <= DJW_MAX_GROUPS && (r.groups > 1 ==> SizeOk(r.size))
    ensures r.Sizes? && ngroups != 0 ==> r.groups == ngroups
    ensures r.Sizes? && sectorSize != 0 ==> r.size == sectorSize
    ensures r.Sizes? && ngroups == 0 ==> r.groups == Suggested(kind, n).0
    ensures r.Sizes? && sectorSize == 0 ==>
      r.size == if r.groups == 1 || Suggested(kind, n).1 != 0 then Suggested(kind, n).1
                else match kind case DataSection => 20 case InstSection => 50 case AddrSection => 130
    ensures r.Sizes? ==> r == Configured(kind, ngroups, sectorSize, n)
  {
    var groups, size := 0, 0;
    if ngroups != 0 {
      if ngroups > DJW_MAX_GROUPS {
        return InternalError;
      }
      groups := ngroups;
    }
    if sectorSize != 0 {
      if sectorSize < DJW_SECTORSZ_MULT || sectorSize > DJW_SECTORSZ_MAX || sectorSize % DJW_SECTORSZ_MULT != 0 {
        return InternalError;
      }
      size := sectorSize;
    }
    if groups == 0 || size == 0 {
      var s := Suggested(kind, n);
      if groups == 0 { groups := s.0; }
      if size == 0 { size := s.1; }
    }
    if groups != 1 && size == 0 {
      size := match kind case DataSection => 20 case InstSection => 50 case AddrSection => 130;
    }
    r := Sizes(groups, size);
  }

  // The first tables.

  /** Length 1 for symbols from `lo` to `hi`, 16 for all others. */
  function Favour(lo: nat, hi: nat): (clen: seq<nat>)
    ensures |clen| == ALPHABET_SIZE && forall s | 0 <= s < ALPHABET_SIZE :: clen[s] == if lo <= s <= hi then 1 else 16
  {
    seq(ALPHABET_SIZE, s => if lo <= s <= hi then 1 else 16)
  }

  /** How often the symbols from `s` on occur. */
  function Remaining(occurs: seq<nat>, s: nat): nat
    requires s <= |occurs|
    decreases |occurs| - s
  {
    if s == |occurs| then 0 else occurs[s] + Remaining(occurs, s + 1)
  }

  /** The end of a stretch from symbol `from` on that occurs at least `goal` times: the
      first for which that is so. */
  function Cut(occurs: seq<nat>, from: nat, goal: nat): (c: nat)
    requires from <= |occurs| && goal <= Remaining(occurs, from)
    ensures from <= c <= |occurs| && Remaining(occurs, from) - Remaining(occurs, c) >= goal
    ensures c > from ==> Remaining(occurs, from) - Remaining(occurs, c - 1) < goal
    decreases |occurs| - from
  {
    if goal == 0 then from
    else
      assert from < |occurs|;
      Cut(occurs, from + 1, Max(0, goal - occurs[from]))
  }

  /** Where the stretch of the next group ends if `k` groups share the symbols from `from`
      on: each is to have an equal part of what is left. */
  function NextCut(occurs: seq<nat>, from: nat, k: nat): (c: nat)
    requires from <= |occurs| && 0 < k
    ensures from <= c <= |occurs|
  {
    QuotientLess(Remaining(occurs, from), k);
    Cut(occurs, from, Remaining(occurs, from) / k)
  }

  /** Some group has no part. */
  predicate TooMany(occurs: seq<nat>, from: nat, k: nat)
    requires from <= |occurs|
    decreases k
  {
    k > 0 && (Remaining(occurs, from) < k || TooMany(occurs, NextCut(occurs, from, k), k - 1))
  }

  /** The first tables of `k` groups: each favours its stretch and the symbol behind it. */
  function FirstTables(occurs: seq<nat>, lo: nat, from: nat, k: nat): (t: seq<seq<nat>>)
    requires from <= |occurs|
    ensures |t| == k
    decreases k
  {
    if k == 0 then []
    else
      var c := NextCut(occurs, from, k);
      [Favour(lo, c)] + FirstTables(occurs, c + 1, c, k - 1)
  }

  /** The initial tables give each group a stretch of the alphabet of about equal weight. It
      does not work if no weight is left for a group, unless inefficient groups are asked
      for. */
  method InitialTables(occurs: seq<nat>, n: nat, groups: nat, inefficient: bool) returns (tables: Option<seq<seq<nat>>>)
    requires |occurs| == ALPHABET_SIZE && Remaining(occurs, 0) == n && 0 < groups
    ensures tables.Some? ==> |tables.value| == groups && LengthTables(tables.value)
    ensures tables == if !inefficient && TooMany(occurs, 0, groups) then None else Some(FirstTables(occurs, 0, 0, groups))
  {
    hide LengthTables, Favour, Remaining, TooMany, Cut, NextCut, FirstTables;
    var all: seq<seq<nat>> := [];
    var left, sym1: nat, sym2: nat := n, 0, 0;
    NoTables(occurs);
    ghost var goal0 := FirstTables(occurs, 0, 0, groups);
    for gp := 0 to groups
      invariant |all| == gp && LengthTables(all) && sym2 <= ALPHABET_SIZE && left == Remaining(occurs, sym2)
      invariant all + FirstTables(occurs, sym1, sym2, groups - gp) == goal0
      invariant !inefficient ==> (TooMany(occurs, sym2, groups - gp) <==> TooMany(occurs, 0, groups))
    {
      MoreTables(all, occurs, sym1, sym2, groups - gp);
      var goal, sum, to := Stretch(occurs, left, sym2, groups - gp);
      if goal == 0 && !inefficient {
        return None;
      }
      all := all + [Favour(sym1, to)];
      left, sym2 := left - sum, to;
      sym1 := sym2 + 1;
    }
    NonePart(occurs, sym1, sym2);
    assert all + [] == all;
    tables := Some(all);
  }

  /** The stretch of one group. */
  method Stretch(occurs: seq<nat>, left: nat, from: nat, k: nat) returns (goal: nat, sum: nat, to: nat)
    requires from <= |occurs| && left == Remaining(occurs, from) && 0 < k
    ensures to == NextCut(occurs, from, k) && Remaining(occurs, to) == left - sum
    ensures goal == 0 <==> left < k
    ensures TooMany(occurs, from, k) <==> goal == 0 || TooMany(occurs, to, k - 1)
  {
    hide Remaining, TooMany, Cut, NextCut;
    NoPart(occurs, from, k);
    QuotientZero(left, k);
    goal, sum, to := left / k, 0, from;
    while sum < goal
      invariant from <= to <= |occurs| && left == sum + Remaining(occurs, to) && goal <= left
      invariant Max(0, goal - sum) <= Remaining(occurs, to)
      invariant Cut(occurs, to, Max(0, goal - sum)) == NextCut(occurs, from, k)
      decreases |occurs| - to
    {
      OneSymbol(occurs, to, goal - sum);
      sum := sum + occurs[to];
      to := to + 1;
    }
    NoGoal(occurs, to);
  }

  lemma NoTables(occurs: seq<nat>)
    ensures LengthTables([]) && forall k: nat :: [] + FirstTables(occurs, 0, 0, k) == FirstTables(occurs, 0, 0, k)
  {
  }

  lemma MoreTables(tables: seq<seq<nat>>, occurs: seq<nat>, lo: nat, from: nat, k: nat)
    requires LengthTables(tables) && from <= |occurs| && 0 < k
    ensures var c := NextCut(occurs, from, k);
      && LengthTables(tables + [Favour(lo, c)])
      && tables + FirstTables(occurs, lo, from, k) == tables + [Favour(lo, c)] + FirstTables(occurs, c + 1, c, k - 1)
  {
    hide NextCut, Favour;
    var c := NextCut(occurs, from, k);
    var f, rest := Favour(lo, c), FirstTables(occurs, c + 1, c, k - 1);
    assert FirstTables(occurs, lo, from, k) == [f] + rest;
    assert tables + ([f] + rest) == tables + [f] + rest;
    FavourSmall(lo, c);
  }

  lemma FavourSmall(lo: nat, hi: nat)
    ensures |Favour(lo, hi)| == ALPHABET_SIZE && SmallCodes(Favour(lo, hi))
  {
  }

  lemma NoPart(occurs: seq<nat>, from: nat, k: nat)
    requires from <= |occurs| && 0 < k
    ensures Remaining(occurs, from) / k <= Remaining(occurs, from)
    ensures NextCut(occurs, from, k) == Cut(occurs, from, Remaining(occurs, from) / k)
    ensures TooMany(occurs, from, k) <==> Remaining(occurs, from) / k == 0 || TooMany(occurs, NextCut(occurs, from, k), k - 1)
  {
    hide Remaining, Cut;
    QuotientLess(Remaining(occurs, from), k);
    QuotientZero(Remaining(occurs, from), k);
  }

  lemma QuotientZero(a: nat, b: nat)
    requires 0 < b
    ensures a / b == 0 <==> a < b
  {
    if a < b { Quotient(a, b, 0); }
    assert a == (a / b) * b + a % b;
    assert a / b == 0 ==> (a / b) * b == 0;
  }

  lemma NonePart(occurs: seq<nat>, lo: nat, from: nat)
    requires from <= |occurs|
    ensures !TooMany(occurs, from, 0) && FirstTables(occurs, lo, from, 0) == []
  {
  }

  lemma NoGoal(occurs: seq<nat>, from: nat)
    requires from <= |occurs|
    ensures Cut(occurs, from, 0) == from
  {
  }

  lemma OneSymbol(occurs: seq<nat>, from: nat, goal: nat)
    requires from <= |occurs| && 0 < goal <= Remaining(occurs, from)
    ensures from < |occurs| && Remaining(occurs, from) == occurs[from] + Remaining(occurs, from + 1)
    ensures Cut(occurs, from, goal) == Cut(occurs, from + 1, Max(0, goal - occurs[from]))
    ensures Max(0, goal - occurs[from]) <= Remaining(occurs, from + 1)
  {
  }

  lemma QuotientLess(a: nat, b: nat)
    requires 0 < b
    ensures a / b <= a
  {
    var q := a / b;
    assert a == q * b + a % b;
    TimesGrows(q, b);
  }

  lemma {:induction false} TimesGrows(q: nat, b: nat)
    requires 0 < b
    ensures q <= q * b
  {
    if q > 0 {
      TimesGrows(q - 1, b);
      assert q * b == (q - 1) * b + b;
    }
  }

  ghost predicate LengthTables(tables: seq<seq<nat>>) {
    forall g | 0 <= g < |tables| :: |tables[g]| == ALPHABET_SIZE && SmallCodes(tables[g])
  }

  // A round of the search.

  /** The bits that the bytes of a sector take with given lengths. */
  function SectorCost(clen: seq<nat>, sector: seq<byte>): nat
    requires |clen| == ALPHABET_SIZE
  {
    if sector == [] then 0 else SectorCost(clen, sector[..|sector| - 1]) + clen[sector[|sector| - 1]]
  }

  lemma {:induction false} SmallCost(clen: seq<nat>, sector: seq<byte>)
    requires |clen| == ALPHABET_SIZE && SmallCodes(clen)
    ensures SectorCost(clen, sector) <= DJW_MAX_CODELEN * |sector|
  {
    if sector != [] { SmallCost(clen, sector[..|sector| - 1]); }
  }

  /** The first of the first `k` groups of those that take the fewest bits. */
  function Best(tables: seq<seq<nat>>, sector: seq<byte>, k: nat): (w: nat)
    requires 0 < k <= |tables| && forall g | 0 <= g < |tables| :: |tables[g]| == ALPHABET_SIZE
    ensures w < k && forall g | 0 <= g < k :: SectorCost(tables[w], sector) <= SectorCost(tables[g], sector)
    ensures forall g | 0 <= g < w :: SectorCost(tables[w], sector) < SectorCost(tables[g], sector)
  {
    if k == 1 then 0
    else
      var w := Best(tables, sector, k - 1);
      if SectorCost(tables[k - 1], sector) < SectorCost(tables[w], sector) then k - 1 else w
  }

  /** The group of every sector. */
  function Selected(tables: seq<seq<nat>>, input: seq<byte>, size: nat): (sel: seq<nat>)
    requires tables != [] && 0 < size && forall g | 0 <= g < |tables| :: |tables[g]| == ALPHABET_SIZE
    ensures |sel| == HuffmanGroups.Sectors(|input|, size) && Chooses(sel, |tables|)
    decreases |input|
  {
    if input == [] then []
    else
      var n := Min(size, |input|);
      [Best(tables, input[..n], |tables|)] + Selected(tables, input[n..], size)
  }

  /** Costs of a sector in all groups, a byte at a time. */
  method GroupCosts(tables: seq<seq<nat>>, sector: seq<byte>) returns (gcost: array<nat>)
    requires LengthTables(tables)
    ensures fresh(gcost) && gcost.Length == |tables|
    ensures forall g | 0 <= g < |tables| :: gcost[g] == SectorCost(tables[g], sector)
  {
    hide SectorCost, SmallCodes;
    gcost := new nat[|tables|](_ => 0);
    NoCost(tables);
    for k := 0 to |sector|
      invariant forall g | 0 <= g < |tables| :: gcost[g] == SectorCost(tables[g], sector[..k])
    {
      for gp := 0 to |tables|
        invariant forall g | gp <= g < |tables| :: gcost[g] == SectorCost(tables[g], sector[..k])
        invariant forall g | 0 <= g < gp :: gcost[g] == SectorCost(tables[g], sector[..k + 1])
      {
        CostMore(tables[gp], sector, k);
        gcost[gp] := gcost[gp] + tables[gp][sector[k]];
      }
    }
    assert sector[..|sector|] == sector;
  }

  lemma NoCost(tables: seq<seq<nat>>)
    requires LengthTables(tables)
    ensures forall g | 0 <= g < |tables| :: SectorCost(tables[g], []) == 0
  {
  }

  lemma CostMore(clen: seq<nat>, sector: seq<byte>, k: nat)
    requires |clen| == ALPHABET_SIZE && k < |sector|
    ensures SectorCost(clen, sector[..k + 1]) == SectorCost(clen, sector[..k]) + clen[sector[k]]
  {
    assert sector[..k + 1][..k] == sector[..k];
  }

  /** The minimum-cost group of a sector. */
  method Winner(tables: seq<seq<nat>>, sector: seq<byte>) returns (winner: nat)
    requires tables != [] && LengthTables(tables) && DJW_MAX_CODELEN * |sector| < USIZE_LIMIT - 1
    ensures winner == Best(tables, sector, |tables|)
  {
    hide SectorCost;
    var gcost := GroupCosts(tables, sector);
    var best := USIZE_LIMIT - 1;
    winner := 0;
    SmallCost(tables[0], sector);
    for gp := 0 to |tables|
      invariant if gp == 0 then best == USIZE_LIMIT - 1
                else winner == Best(tables, sector, gp) && best == SectorCost(tables[winner], sector)
    {
      if gcost[gp] < best {
        best, winner := gcost[gp], gp;
      }
    }
  }

  /** Select the best group for each sector. */
  method SelectGroups(input: seq<byte>, tables: seq<seq<nat>>, size: nat) returns (sel: seq<nat>)
    requires tables != [] && LengthTables(tables) && SizeOk(size)
    ensures sel == Selected(tables, input, size)
  {
    hide Best, SectorCost, LengthTables, Selected, HuffmanGroups.Sectors;
    TablesAre(tables);
    SizeAbove(size);
    sel := [];
    var at := 0;
    assert input[0..] == input;
    while at < |input|
      invariant at <= |input| && sel + Selected(tables, input[at..], size) == Selected(tables, input, size)
    {
      var n := Min(size, |input| - at);
      var w := Winner(tables, input[at..at + n]);
      SelectedStep(tables, input, size, at);
      sel := sel + [w];
      at := at + n;
    }
    NoneSelected(tables, input[at..], size);
  }

  lemma SelectedStep(tables: seq<seq<nat>>, input: seq<byte>, size: nat, at: nat)
    requires tables != [] && 0 < size && at < |input| && forall g | 0 <= g < |tables| :: |tables[g]| == ALPHABET_SIZE
    ensures var n := Min(size, |input| - at);
      Selected(tables, input[at..], size) == [Best(tables, input[at..at + n], |tables|)] + Selected(tables, input[at + n..], size)
  {
    hide Best;
    var n := Min(size, |input| - at);
    assert input[at..][..n] == input[at..at + n] && input[at..][n..] == input[at + n..];
  }

  lemma NoneSelected(tables: seq<seq<nat>>, input: seq<byte>, size: nat)
    requires tables != [] && 0 < size && input == [] && forall g | 0 <= g < |tables| :: |tables[g]| == ALPHABET_SIZE
    ensures Selected(tables, input, size) == []
  {
  }

  // The search.

  /** A round: the groups selected with the tables it starts from, the tables made for them,
      and the bits that the sectors then take. */
  datatype Turn = Turn(tables: seq<seq<nat>>, sel: seq<nat>, next: seq<seq<nat>>, bits: nat)

  ghost predicate TurnOk(x: Turn, input: seq<byte>, size: nat, groups: nat) {
    && 0 < size && 0 < |x.tables| == groups && |x.next| == groups && LengthTables(x.tables) && LengthTables(x.next)
    && x.sel == Selected(x.tables, input, size) && TablesCode(x.next, input) && TablesFor(x.next, input, x.sel, size)
    && x.bits == |SectorBits(x.next, x.sel, size, input)|
  }

  /** After the first round, another one follows if fewer than six have been made and the
      last one gained at least twenty bits, or lost some: the difference is one of 32
      bits. */
  predicate Again(xs: seq<Turn>, i: nat)
    requires i < |xs|
  {
    i == 0 || (i + 1 < DJW_MAX_ITER && (xs[i - 1].bits - xs[i].bits) % USIZE_LIMIT >= DJW_MIN_IMPROVEMENT)
  }

  /** The rounds of a search that starts from `first` and comes to `sel`. */
  ghost predicate Turns(xs: seq<Turn>, input: seq<byte>, size: nat, first: seq<seq<nat>>, sel: seq<nat>) {
    && xs != [] && xs[0].tables == first && xs[|xs| - 1].sel == sel
    && (forall i | 0 <= i < |xs| :: TurnOk(xs[i], input, size, |first|))
    && (forall i | 0 < i < |xs| :: xs[i].tables == xs[i - 1].next)
    && (forall i | 0 <= i < |xs| :: Again(xs, i) <==> i < |xs| - 1)
  }

  /** Rounds of selecting groups and making tables, as long as they gain something,
      but no more than six. */
  method Evolve(input: seq<byte>, occurs: seq<nat>, first: seq<seq<nat>>, size: nat)
      returns (plan: Plan, ghost xs: seq<Turn>)
    requires input != [] && SizeOk(size) && 2 <= |first| <= DJW_MAX_GROUPS && LengthTables(first)
    requires |occurs| == ALPHABET_SIZE && forall c | 0 <= c < ALPHABET_SIZE :: occurs[c] == Occurrences(input, c)
    ensures PlanOk(plan, input) && plan.groups == |first| && plan.size == size && Turns(xs, input, size, first, plan.sel)
  {
    hide Selected, Occurrences, SizeOk, HuffmanGroups.Sectors, TablesCode, TablesFor, LengthTables, SmallRows, SectorBits, TurnOk, SoFar,
      Turns;
    SizeAbove(size);
    var niter, bestBits := 0, 0;
    var tables := first;
    var sel: seq<nat> := [];
    xs := [];
    NoTurns(input, size, first);
    while true
      invariant |tables| == |first| && LengthTables(tables) && niter == |xs| < DJW_MAX_ITER && SoFar(xs, input, size, first)
      invariant if xs == [] then tables == first else tables == xs[niter - 1].next && bestBits == xs[niter - 1].bits
      decreases DJW_MAX_ITER - niter
    {
      TablesAre(tables);
      niter := niter + 1;
      sel := SelectGroups(input, tables, size);
      plan := Plan(|first|, size, sel);
      var next, outputBits := GroupCodes(input, occurs, sel, size, |first|);
      RowsAreTables(next);
      ghost var x := Turn(tables, sel, next, outputBits);
      TurnIs(x, input, size);
      MoreTurns(xs, x, input, size, first);
      xs := xs + [x];
      if !(niter == 1 || (niter < DJW_MAX_ITER && (bestBits - outputBits) % USIZE_LIMIT >= DJW_MIN_IMPROVEMENT)) {
        return;
      }
      bestBits, tables := outputBits, next;
    }
  }

  /** The rounds up to one that another follows. */
  ghost predicate SoFar(xs: seq<Turn>, input: seq<byte>, size: nat, first: seq<seq<nat>>) {
    && (xs != [] ==> xs[0].tables == first)
    && (forall i | 0 <= i < |xs| :: TurnOk(xs[i], input, size, |first|) && Again(xs, i))
    && (forall i | 0 < i < |xs| :: xs[i].tables == xs[i - 1].next)
  }

  lemma NoTurns(input: seq<byte>, size: nat, first: seq<seq<nat>>)
    ensures SoFar([], input, size, first)
  {
  }

  lemma MoreTurns(xs: seq<Turn>, x: Turn, input: seq<byte>, size: nat, first: seq<seq<nat>>)
    requires SoFar(xs, input, size, first) && TurnOk(x, input, size, |first|)
    requires x.tables == if xs == [] then first else xs[|xs| - 1].next
    ensures if Again(xs + [x], |xs|) then SoFar(xs + [x], input, size, first) else Turns(xs + [x], input, size, first, x.sel)
  {
    hide TurnOk;
    var ys := xs + [x];
    assert forall i | 0 <= i < |xs| :: Again(ys, i) <==> Again(xs, i);
  }

  lemma TurnIs(x: Turn, input: seq<byte>, size: nat)
    requires 0 < size && 0 < |x.tables| == |x.next| && LengthTables(x.tables) && LengthTables(x.next)
    requires x.sel == Selected(x.tables, input, size) && TablesCode(x.next, input) && TablesFor(x.next, input, x.sel, size)
    requires x.bits == |SectorBits(x.next, x.sel, size, input)|
    ensures TurnOk(x, input, size, |x.tables|)
  {
  }

  lemma SizeAbove(size: nat)
    requires SizeOk(size)
    ensures 0 < size <= DJW_SECTORSZ_MAX
  {
  }

  lemma TablesAre(tables: seq<seq<nat>>)
    requires LengthTables(tables)
    ensures forall g | 0 <= g < |tables| :: |tables[g]| == ALPHABET_SIZE
  {
  }

  lemma RowsAreTables(tables: seq<seq<nat>>)
    requires SmallRows(tables)
    ensures LengthTables(tables)
  {
    SmallLengths(tables);
  }

  /** The plan that the search comes to: as many groups as there is a part for, and sectors
      in them as the last round selected. */
  ghost predicate Found(p: Plan, input: seq<byte>, groups: nat, size: nat, inefficient: bool, xs: seq<Turn>) {
    var occurs := Frequencies(input, ALPHABET_SIZE);
    && 1 <= p.groups <= groups && (inefficient ==> p.groups == groups)
    && (forall g | p.groups < g <= groups :: TooMany(occurs, 0, g))
    && (p.groups > 1 ==>
          && p.size == size && (inefficient || !TooMany(occurs, 0, p.groups))
          && Turns(xs, input, size, FirstTables(occurs, 0, 0, p.groups), p.sel))
  }

  /** The whole search: with too few bytes for so many groups, one group fewer. */
  method SearchGroups(input: seq<byte>, groups: nat, size: nat, inefficient: bool) returns (plan: Plan, ghost xs: seq<Turn>)
    requires input != [] && 1 <= groups <= DJW_MAX_GROUPS && (groups > 1 ==> SizeOk(size))
    ensures PlanOk(plan, input) && Found(plan, input, groups, size, inefficient, xs)
  {
    hide Occurrences, LengthTables, TooMany, FirstTables, Turns, Remaining;
    var freq := CountFreqs(input);
    var occurs := freq[..];
    AllRemain(input, occurs);
    assert occurs == Frequencies(input, ALPHABET_SIZE);
    var left := groups;
    xs := [];
    while left > 1
      invariant 1 <= left <= groups && (inefficient ==> left == groups)
      invariant forall g | left < g <= groups :: TooMany(occurs, 0, g)
    {
      var first := InitialTables(occurs, |input|, left, inefficient);
      if first.Some? {
        plan, xs := Evolve(input, occurs, first.value, size);
        return;
      }
      left := left - 1;
    }
    plan := Plan(1, size, []);
  }

  lemma AllRemain(input: seq<byte>, freq: seq<nat>)
    requires |freq| == ALPHABET_SIZE && forall c | 0 <= c < ALPHABET_SIZE :: freq[c] == Occurrences(input, c)
    ensures Remaining(freq, 0) == |input|
  {
    AllOccur(input);
    assert freq == Frequencies(input, ALPHABET_SIZE);
    SumRemains(freq, 0);
  }

  lemma {:induction false} SumRemains(f: seq<nat>, s: nat)
    requires s <= |f|
    ensures Sum(f, s) + Remaining(f, s) == Sum(f, |f|)
    decreases |f| - s
  {
    if s < |f| { SumRemains(f, s + 1); }
  }

  /** Every byte is one of the symbols. */
  lemma {:induction false} AllOccur(s: seq<byte>)
    ensures Sum(Frequencies(s, ALPHABET_SIZE), ALPHABET_SIZE) == |s|
  {
    hide Occurrences, Sum;
    if s == [] {
      NoOccurrences();
      SumNothing(Frequencies(s, ALPHABET_SIZE), ALPHABET_SIZE);
    } else {
      var t, c := s[..|s| - 1], s[|s| - 1];
      AllOccur(t);
      OccurrencesSnoc(t, c);
      assert s == t + [c];
      assert Frequencies(s, ALPHABET_SIZE) == Frequencies(t, ALPHABET_SIZE)[c := Occurrences(t, c) + 1];
      SumUpdate(Frequencies(t, ALPHABET_SIZE), c, Occurrences(t, c) + 1, ALPHABET_SIZE);
    }
  }

  // From the configuration on.

  /** `xd3_encode_huff` as it is configured. `None` if the configuration is invalid.
      What is written decodes to the input if the groups found are alike; they are if
      the input is short. */
  method EncodeConfigured(input: seq<byte>, kind: Kind, ngroups: nat, sectorSize: nat, inefficient: bool, before: nat)
      returns (r: Option<Encoded>, plan: Plan, ghost t: Trace, ghost xs: seq<Turn>)
    requires input != []
    ensures r.None? <==> ngroups > DJW_MAX_GROUPS || (sectorSize != 0 && !SizeOk(sectorSize))
    ensures r.Some? ==> PlanOk(plan, input) && Planned(t, plan, input)
    ensures r.Some? ==>
      var c := Configured(kind, ngroups, sectorSize, |input|); Found(plan, input, c.groups, c.size, inefficient, xs)
    ensures r.Some? && r.value.Output? ==> TraceOk(t, input) && |r.value.bytes| == HuffSize(t, input)
    ensures r.Some? ==> (r.value.NoSecond? <==> !inefficient && SaveLittle(t, plan, input, before))
    ensures r.Some? && r.value.Output? && Alike(plan, input) ==> forall more: seq<byte> :: Decodes(r.value.bytes, more, input)
    ensures r.Some? && |input| + ALPHABET_SIZE + 1 < Fib(DJW_MAX_CODELEN + 3) ==> Alike(plan, input)
  {
    hide Fib, Found, Planned, SaveLittle, Decodes, Alike, TraceOk, HuffSize, Suggested, Configured;
    var sizes := HowManyGroups(kind, ngroups, sectorSize, |input|);
    t, xs := One([], []), [];
    if sizes == InternalError {
      return None, Plan(1, 0, []), t, xs;
    }
    plan, xs := SearchGroups(input, sizes.groups, sizes.size, inefficient);
    if |input| + ALPHABET_SIZE + 1 < Fib(DJW_MAX_CODELEN + 3) {
      ShortAlike(plan, input);
    }
    var e;
    e, t := EncodeHuff(input, inefficient, before, plan);
    r := Some(e);
  }
}
