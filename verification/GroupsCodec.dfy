/** Encoder and decoder of the Huffman secondary compressor, for one or several
    groups. */
module GroupsCodec {
  import opened Bytes
  import opened Options
  import opened BitIO
  import opened Canonical
  import opened CodeTree
  import opened PrefixLengths
  import opened MoveToFront
  import opened RunDecoder
  import opened RunRoundTrip
  import opened GroupPrefix
  import opened Huffman
  import opened HuffmanCodec
  import opened HuffmanGroups
  import opened GroupFreqs

  /** What the search for groups has come to: how many, sector size, and a group for
      each sector. With one group, the rest of it is not used. */
  datatype Plan = Plan(groups: nat, size: nat, sel: seq<nat>)

  ghost predicate PlanOk(p: Plan, input: seq<byte>) {
    1 <= p.groups <= DJW_MAX_GROUPS && (p.groups > 1 ==> Choice(p, input))
  }

  ghost predicate Choice(p: Plan, input: seq<byte>) {
    SizeOk(p.size) && |p.sel| == HuffmanGroups.Sectors(|input|, p.size) && Chooses(p.sel, p.groups)
  }

  /** The frequencies of all groups. */
  function PlanFreqs(p: Plan, input: seq<byte>): (freqs: seq<seq<nat>>)
    requires 0 < p.size && |p.sel| == HuffmanGroups.Sectors(|input|, p.size)
    ensures |freqs| == p.groups && forall g | 0 <= g < |freqs| :: freqs[g] == GroupFreq(input, p.sel, p.size, g)
  {
    seq(p.groups, g requires 0 <= g < p.groups => GroupFreq(input, p.sel, p.size, g))
  }

  /** The tables are codes from the frequencies of their groups. */
  ghost predicate TablesFor(tables: seq<seq<nat>>, input: seq<byte>, sel: seq<nat>, size: nat)
    requires 0 < size && |sel| == HuffmanGroups.Sectors(|input|, size)
  {
    forall g | 0 <= g < |tables| :: Built(GroupFreq(input, sel, size, g), tables[g], DJW_MAX_CODELEN)
  }

  ghost predicate SmallRows(tables: seq<seq<nat>>) {
    forall g | 0 <= g < |tables| :: |tables[g]| == ALPHABET_SIZE && Within(tables[g], ClenMtf())
  }

  /** Codes for all groups, and the bits that the sectors take with them. */
  method GroupCodes(input: seq<byte>, occurs: seq<nat>, sel: seq<nat>, size: nat, groups: nat)
      returns (tables: seq<seq<nat>>, outputBits: nat)
    requires input != [] && 0 < size && |sel| == HuffmanGroups.Sectors(|input|, size) && Chooses(sel, groups)
    requires |occurs| == ALPHABET_SIZE && forall c | 0 <= c < ALPHABET_SIZE :: occurs[c] == Occurrences(input, c)
    ensures |tables| == groups && TablesCode(tables, input) && TablesFor(tables, input, sel, size) && SmallRows(tables)
    ensures outputBits == |SectorBits(tables, sel, size, input)|
  {
    hide Built, AllCoded, Kraft, ClenMtf, Within, Shows, Lending, GroupBytes, FreqsOf, SectorBits, HuffmanGroups.Sectors, CodeString,
      GroupSizes, Occurrences;
    tables, outputBits := [], 0;
    var freqs, zeros := EvolveFreqs(input, occurs, sel, size, groups);
    SizesNone(tables, sel, size, input);
    for g := 0 to groups
      invariant |tables| == g && TablesCode(tables, input) && TablesFor(tables, input, sel, size) && SmallRows(tables)
      invariant outputBits == GroupSizes(tables, sel, size, input, g)
    {
      ghost var b := GroupBytes(input, sel, size, g);
      GroupShows(input, sel, size, g);
      var clen, bits := GroupCode(input, freqs[g], zeros[g], b);
      LengthsWithin(clen);
      SizesMore(tables, clen, sel, size, input);
      tables, outputBits := tables + [clen], outputBits + bits;
    }
    SectorsSize(tables, sel, size, input);
  }

  lemma SizesNone(tables: seq<seq<nat>>, sel: seq<nat>, size: nat, input: seq<nat>)
    requires 0 < size && |sel| == HuffmanGroups.Sectors(|input|, size) && tables == []
    ensures GroupSizes(tables, sel, size, input, 0) == 0
  {
  }

  lemma SizesMore(tables: seq<seq<nat>>, clen: seq<nat>, sel: seq<nat>, size: nat, input: seq<nat>)
    requires 0 < size && |sel| == HuffmanGroups.Sectors(|input|, size)
    requires AllCoded(clen, input) && forall g | 0 <= g < |tables| :: AllCoded(tables[g], input)
    ensures AllCoded(clen, GroupBytes(input, sel, size, |tables|))
    ensures forall g | 0 <= g < |tables + [clen]| :: AllCoded((tables + [clen])[g], input)
    ensures GroupSizes(tables + [clen], sel, size, input, |tables| + 1)
            == GroupSizes(tables, sel, size, input, |tables|) + |CodeString(clen, GroupBytes(input, sel, size, |tables|))|
  {
    hide CodeString, GroupBytes, AllCoded;
    PartCoded(clen, input, GroupBytes(input, sel, size, |tables|));
    SizesFrame(tables, tables + [clen], sel, size, input, |tables|);
  }

  lemma {:induction false} SizesFrame(tables: seq<seq<nat>>, more: seq<seq<nat>>, sel: seq<nat>, size: nat, input: seq<nat>, k: nat)
    requires 0 < size && |sel| == HuffmanGroups.Sectors(|input|, size) && k <= |tables| <= |more|
    requires (forall g | 0 <= g < |more| :: AllCoded(more[g], input)) && forall g | 0 <= g < |tables| :: more[g] == tables[g]
    ensures (forall g | 0 <= g < |tables| :: AllCoded(tables[g], input))
    ensures GroupSizes(more, sel, size, input, k) == GroupSizes(tables, sel, size, input, k)
  {
    hide CodeString, GroupBytes, AllCoded;
    assert forall g | 0 <= g < |tables| :: AllCoded(more[g], input);
    if k > 0 { SizesFrame(tables, more, sel, size, input, k - 1); }
  }

  /** The selectors: a code for their move-to-front codes, its lengths, and the
      codes. */
  method EncodeSelectors(w: BitWriter, sel: seq<nat>, groups: nat) returns (sl: seq<nat>, selectBits: nat)
    requires w.Valid() && sel != [] && 2 <= groups <= DJW_MAX_GROUPS && Chooses(sel, groups)
    modifies w
    ensures w.Valid() && |sl| == groups + 1 && Kraft(sl, DJW_MAX_GBCLEN) && HasCode(sl) && Within(sel, Iota(groups))
    ensures (forall i | 0 <= i < |sl| :: sl[i] <= DJW_MAX_GBCLEN) && AllCoded(sl, Codes(sel, Iota(groups), 0))
    ensures w.Bits() == old(w.Bits()) + (Numbers(sl, DJW_GBCLEN_BITS) + CodeString(sl, Codes(sel, Iota(groups), 0)))
    ensures selectBits == |CodeString(sl, Codes(sel, Iota(groups), 0))|
    ensures BuiltOn(Codes(sel, Iota(groups), 0), groups + 1, sl, DJW_MAX_GBCLEN)
  {
    hide Built, BuiltOn, Cost, Codes, Kraft, Occurrences, CodeString, CompleteCode, AllCoded, CodeOf, FewSymbols, Pow2, ToBits, Unpack, Lsb, Iota, Numbers;
    SelWithin(sel, groups);
    var grmtf := new nat[groups](i => i);
    IotaArray(grmtf[..], groups);
    var mtf, freq := ComputeMtf12(sel, grmtf, groups);
    SelCounts(sel, groups, freq[..groups + 1]);
    CallersFit(groups);
    sl, selectBits := BuildPrefix(freq[..groups + 1], DJW_MAX_GBCLEN);
    CountedCoded(mtf, freq[..groups + 1], sl, DJW_MAX_GBCLEN);
    BuiltIs(mtf, freq[..groups + 1], sl, DJW_MAX_GBCLEN);
    LengthsFit(freq[..groups + 1], sl, DJW_MAX_GBCLEN);
    var codes := BuildCodes(sl, DJW_MAX_GBCLEN);
    EncodeNumbers(w, sl);
    AllCodedIs(sl, mtf);
    CostOfCodes(mtf, freq[..groups + 1], sl);
    ghost var b := w.Bits();
    EncodeSymbols(w, sl, DJW_MAX_GBCLEN, codes, mtf);
    SelHasCode(sl, mtf);
  }

  lemma CostOfCodes(cs: seq<nat>, freq: seq<nat>, clen: seq<nat>)
    requires AllCoded(clen, cs) && |freq| == |clen| && forall c | 0 <= c < |freq| :: freq[c] == Occurrences(cs, c)
    requires forall k | 0 <= k < |cs| :: cs[k] < |clen|
    ensures Cost(freq, clen, |clen|) == |CodeString(clen, cs)|
  {
    hide Cost, CodeString, Occurrences;
    CostIsSize(cs, clen);
    assert freq == Frequencies(cs, |clen|);
  }

  lemma SelHasCode(sl: seq<nat>, cs: seq<nat>)
    requires AllCoded(sl, cs) && cs != []
    ensures HasCode(sl)
  {
    CodedHasCode(sl, cs);
  }

  lemma SelWithin(sel: seq<nat>, groups: nat)
    requires Chooses(sel, groups)
    ensures Within(sel, Iota(groups)) && forall x | x in sel :: x in Iota(groups)
  {
  }

  lemma IotaArray(s: seq<nat>, groups: nat)
    requires |s| == groups && forall i | 0 <= i < groups :: s[i] == i
    ensures s == Iota(groups)
  {
  }

  lemma SelCounts(sel: seq<nat>, groups: nat, freq: seq<nat>)
    requires sel != [] && 2 <= groups && Chooses(sel, groups) && Within(sel, Iota(groups)) && |freq| == groups + 1
    requires forall c | 0 <= c < |freq| :: freq[c] == Occurrences(Codes(sel, Iota(groups), 0), c)
    ensures forall k | 0 <= k < |Codes(sel, Iota(groups), 0)| :: Codes(sel, Iota(groups), 0)[k] < groups + 1
    ensures (exists i :: 0 <= i < |freq| && freq[i] > 0) && Codes(sel, Iota(groups), 0) != []
  {
    var cs := Codes(sel, Iota(groups), 0);
    CodesSize(sel, Iota(groups), 0);
    assert forall k | 0 <= k < |cs| :: cs[k] in cs;
    CodesSome(sel, Iota(groups));
    assert cs[0] in cs;
    OccurrencesIn(cs, cs[0]);
    assert freq[cs[0]] > 0;
  }

  /** Three bits for each length. */
  method EncodeNumbers(w: BitWriter, vs: seq<nat>)
    requires w.Valid() && forall i | 0 <= i < |vs| :: vs[i] <= DJW_MAX_GBCLEN
    modifies w
    ensures w.Valid() && w.Bits() == old(w.Bits()) + Numbers(vs, DJW_GBCLEN_BITS)
  {
    hide Pow2, ToBits, Unpack, Lsb, Numbers;
    ghost var b := w.Bits();
    NumbersStart(vs);
    for i := 0 to |vs|
      invariant w.Valid() && w.Bits() + Numbers(vs[i..], DJW_GBCLEN_BITS) == b + Numbers(vs, DJW_GBCLEN_BITS)
    {
      NumbersStep(vs, i);
      w.EncodeBits(DJW_GBCLEN_BITS, vs[i]);
    }
  }

  lemma NumbersStart(vs: seq<nat>)
    ensures vs[0..] == vs && Numbers(vs[|vs|..], DJW_GBCLEN_BITS) == []
  {
  }

  lemma NumbersStep(vs: seq<nat>, i: nat)
    requires i < |vs| && vs[i] <= DJW_MAX_GBCLEN
    ensures Numbers(vs[i..], DJW_GBCLEN_BITS) == ToBits(vs[i], DJW_GBCLEN_BITS) + Numbers(vs[i + 1..], DJW_GBCLEN_BITS)
    ensures vs[i] < Pow2(DJW_GBCLEN_BITS)
  {
    assert vs[i..][1..] == vs[i + 1..];
    assert Pow2(3) == 8;
  }

  /** The sectors, each with the code of its group. */
  method EncodeSectors(w: BitWriter, tables: seq<seq<nat>>, sel: seq<nat>, size: nat, input: seq<byte>)
    requires w.Valid() && 0 < size && |sel| == HuffmanGroups.Sectors(|input|, size) && Chooses(sel, |tables|)
    requires TablesCode(tables, input)
    requires forall g | 0 <= g < |tables| :: SmallCodes(tables[g])
    modifies w
    ensures w.Valid() && w.Bits() == old(w.Bits()) + SectorBits(tables, sel, size, input)
  {
    hide Kraft, CodeOf, CodeString, Pow2, SectorBits;
    ghost var b := w.Bits();
    var at, c := 0, 0;
    assert input[0..] == input && sel[0..] == sel;
    while at < |input|
      invariant w.Valid() && at <= |input| && c <= |sel| && |sel[c..]| == HuffmanGroups.Sectors(|input[at..]|, size)
      invariant TablesCode(tables, input[at..]) && Chooses(sel[c..], |tables|)
      invariant w.Bits() + SectorBits(tables, sel[c..], size, input[at..]) == b + SectorBits(tables, sel, size, input)
      decreases |input| - at
    {
      var n := Min(size, |input| - at);
      SectorStep(tables, sel, size, input, c, at);
      var t := tables[sel[c]];
      var codes := BuildCodes(t, DJW_MAX_CODELEN);
      EncodeSymbols(w, t, DJW_MAX_CODELEN, codes, input[at..at + n]);
      at, c := at + n, c + 1;
    }
    NoSector(tables, sel[c..], size);
  }

  lemma NoSector(tables: seq<seq<nat>>, sel: seq<nat>, size: nat)
    requires 0 < size && sel == []
    ensures SectorBits(tables, sel, size, []) == []
  {
  }

  lemma SectorStep(tables: seq<seq<nat>>, sel: seq<nat>, size: nat, input: seq<byte>, c: nat, at: nat)
    requires 0 < size && at < |input| && c <= |sel| && |sel[c..]| == HuffmanGroups.Sectors(|input[at..]|, size)
    requires TablesCode(tables, input[at..]) && Chooses(sel[c..], |tables|)
    ensures var n := Min(size, |input| - at);
      && c < |sel| && sel[c] < |tables| && Kraft(tables[sel[c]], DJW_MAX_CODELEN)
      && AllCoded(tables[sel[c]], input[at..at + n])
      && TablesCode(tables, input[at + n..]) && Chooses(sel[c + 1..], |tables|)
      && |sel[c + 1..]| == HuffmanGroups.Sectors(|input[at + n..]|, size)
      && SectorBits(tables, sel[c..], size, input[at..])
         == CodeString(tables[sel[c]], input[at..at + n]) + SectorBits(tables, sel[c + 1..], size, input[at + n..])
  {
    hide Kraft, CodeString;
    var n, x, y := Min(size, |input| - at), input[at..], sel[c..];
    assert x[..n] == input[at..at + n] && x[n..] == input[at + n..] && y[1..] == sel[c + 1..] && y[0] == sel[c];
    CodedParts(tables, x, n);
  }

  /** Whether the sectors, with `spent` bytes before them on the page and `extra` bits on top,
      save too little. */
  ghost predicate SectorsSaveLittle(k: Book, input: seq<byte>, extra: nat, spent: nat)
    requires TablesCode(k.tables, input) && 0 < k.size && |k.sel| == HuffmanGroups.Sectors(|input|, k.size) && Chooses(k.sel, |k.tables|)
  {
    |SectorBits(k.tables, k.sel, k.size, input)| + extra + 8 * spent + EFFICIENCY_BITS >= 8 * |input|
  }

  /** What comes before the sectors. */
  ghost function ManyHead(k: Book, input: seq<byte>): seq<bool>
    requires BookOk(k, input)
  {
    CountBits(k, input) + (SizeBits(k, input) + (PrefixBits(k, input) + SelectorBits(k, input)))
  }

  /** The selectors are counted twice: as bits to come, and among the bytes
      of the page. */
  ghost predicate LittleAfterHead(k: Book, input: seq<byte>, before: nat)
    requires BookOk(k, input)
  {
    SectorsSaveLittle(k, input, |CodeString(k.sl, Codes(k.sel, Iota(|k.tables|), 0))|, OnPage(before + |ManyHead(k, input)| / 8))
  }

  /** The codes for code lengths and for selectors are what `djw_build_prefix`
      makes. */
  ghost predicate HeadBuilt(k: Book, input: seq<byte>)
    requires BookOk(k, input)
  {
    && BuiltOn(Codes(MultiPrefix(k.tables), ClenMtf(), 0), DJW_TOTAL_CODES, k.cl, DJW_MAX_CLCLEN)
    && BuiltOn(Codes(k.sel, Iota(|k.tables|), 0), |k.tables| + 1, k.sl, DJW_MAX_GBCLEN)
  }

  lemma NoBook(k: Book, input: seq<byte>)
    requires k.cl == []
    ensures !BookOk(k, input)
  {
  }

  /** `xd3_encode_huff` for several groups. It gives up exactly when little is
      saved, before or after writing the tables. */
  method EncodeMany(input: seq<byte>, inefficient: bool, before: nat, plan: Plan) returns (r: Encoded, ghost k: Book)
    requires input != [] && PlanOk(plan, input) && plan.groups > 1
    ensures |k.tables| == plan.groups && k.size == plan.size && k.sel == plan.sel
    ensures TablesCode(k.tables, input) && TablesFor(k.tables, input, plan.sel, plan.size)
    ensures BookOk(k, input) ==> HeadBuilt(k, input)
    ensures inefficient ==> r.Output?
    ensures r.NoSecond? ==>
      (SectorsSaveLittle(k, input, 0, 0) || (BookOk(k, input) && LittleAfterHead(k, input, before)))
    ensures r.Output? ==> BookOk(k, input)
    ensures r.Output? && !inefficient ==> !SectorsSaveLittle(k, input, 0, 0) && !LittleAfterHead(k, input, before)
    ensures r.Output? ==> exists pad: nat :: pad < 8 && Unpack(r.bytes) == ManyBits(k, input) + Zeros(pad)
  {
    hide Pow2, ToBits, Unpack, HeadBuilt, Lsb, TablesFor, Occurrences, Kraft, SectorBits, BookOk, CountBits, SizeBits,
      PrefixBits, SelectorBits, DataBits, CodeString, ManyBits, ManyHead, AllCoded, SmallRows, OnPage;
    var groups := plan.groups;
    var w := EncodeSizes(groups, plan.size);
    var freq := CountFreqs(input);
    var tables, outputBits := GroupCodes(input, freq[..], plan.sel, plan.size, groups);
    k := Book(tables, [], plan.size, plan.sel, []);
    NoBook(k, input);
    if outputBits + EFFICIENCY_BITS >= 8 * |input| && !inefficient {
      return NoSecond, k;
    }
    var selectBits;
    k, selectBits := EncodeHead(w, input, tables, plan);
    if outputBits + selectBits + 8 * OnPage(before + |w.out|) + EFFICIENCY_BITS >= 8 * |input| && !inefficient {
      return NoSecond, k;
    }
    SmallLengths(tables);
    EncodeSectors(w, tables, plan.sel, plan.size, input);
    HeadThenData(k, input);
    w.FlushBits();
    r := Output(w.out);
  }

  /** How many groups, and the sector size. */
  method EncodeSizes(groups: nat, size: nat) returns (w: BitWriter)
    requires 2 <= groups <= DJW_MAX_GROUPS && SizeOk(size)
    ensures fresh(w) && w.Valid()
    ensures w.Bits() == ToBits(groups - 1, DJW_GROUP_BITS) + ToBits(size / DJW_SECTORSZ_MULT - 1, DJW_SECTORSZ_BITS)
  {
    hide Pow2, ToBits, Unpack, Lsb;
    w := new BitWriter();
    SizesFit(groups, size);
    w.EncodeBits(DJW_GROUP_BITS, groups - 1);
    w.EncodeBits(DJW_SECTORSZ_BITS, size / DJW_SECTORSZ_MULT - 1);
    assert [] + ToBits(groups - 1, DJW_GROUP_BITS) == ToBits(groups - 1, DJW_GROUP_BITS);
  }

  /** The tables and the selectors. */
  method EncodeHead(w: BitWriter, input: seq<byte>, tables: seq<seq<nat>>, plan: Plan) returns (ghost k: Book, selectBits: nat)
    requires w.Valid() && input != [] && PlanOk(plan, input) && plan.groups > 1
    requires |tables| == plan.groups && TablesCode(tables, input) && SmallRows(tables)
    requires w.Bits() == ToBits(|tables| - 1, DJW_GROUP_BITS) + ToBits(plan.size / DJW_SECTORSZ_MULT - 1, DJW_SECTORSZ_BITS)
    modifies w
    ensures k.tables == tables && k.size == plan.size && k.sel == plan.sel && BookOk(k, input) && HeadBuilt(k, input)
    ensures w.Valid() && w.Bits() == ManyHead(k, input)
    ensures selectBits == |CodeString(k.sl, Codes(k.sel, Iota(|k.tables|), 0))|
  {
    hide BuiltOn, Kraft, ClenMtf, CompleteCode, Pow2, ToBits, Unpack, Codes, CodeString, Lsb, Within, Iota, MultiPrefix, Numbers,
      ClclenBits, SectorBits, BookOk, CountBits, SizeBits, PrefixBits, SelectorBits, TablesCode;
    var symbols := ComputeMultiPrefix(tables, ALPHABET_SIZE);
    PrefixSome(tables);
    ghost var cl := EncodePrefix(w, symbols);
    ghost var prefix := ClclenBits(cl) + CodeString(cl, Codes(symbols, ClenMtf(), 0));
    SomeSector(|input|, plan.size);
    var sl, bits := EncodeSelectors(w, plan.sel, plan.groups);
    ghost var selectors := Numbers(sl, DJW_GBCLEN_BITS) + CodeString(sl, Codes(plan.sel, Iota(plan.groups), 0));
    k, selectBits := Book(tables, cl, plan.size, plan.sel, sl), bits;
    Booked(k, input);
    PartsAre(k, input);
    Regroup4(ToBits(|tables| - 1, DJW_GROUP_BITS), ToBits(plan.size / DJW_SECTORSZ_MULT - 1, DJW_SECTORSZ_BITS), prefix, selectors);
  }

  lemma HeadThenData(k: Book, input: seq<byte>)
    requires BookOk(k, input)
    ensures ManyHead(k, input) + SectorBits(k.tables, k.sel, k.size, input) == ManyBits(k, input)
  {
    hide CountBits, SizeBits, PrefixBits, SelectorBits, SectorBits, BookOk;
    PartsAre(k, input);
    Regroup5(CountBits(k, input), SizeBits(k, input), PrefixBits(k, input), SelectorBits(k, input), DataBits(k, input));
  }

  lemma Regroup4(a: seq<bool>, b: seq<bool>, c: seq<bool>, d: seq<bool>)
    ensures a + b + c + d == a + (b + (c + d))
  {
  }

  lemma Regroup5(a: seq<bool>, b: seq<bool>, c: seq<bool>, d: seq<bool>, e: seq<bool>)
    ensures (a + (b + (c + d))) + e == a + (b + (c + (d + e)))
  {
  }

  lemma SizesFit(groups: nat, size: nat)
    requires 2 <= groups <= DJW_MAX_GROUPS && SizeOk(size)
    ensures groups - 1 < Pow2(DJW_GROUP_BITS) && 0 <= size / DJW_SECTORSZ_MULT - 1 < Pow2(DJW_SECTORSZ_BITS)
  {
    assert Pow2(3) == 8 && Pow2(5) == 32;
  }

  lemma PrefixSome(tables: seq<seq<nat>>)
    requires tables != [] && (forall g | 0 <= g < |tables| :: |tables[g]| == ALPHABET_SIZE && Within(tables[g], ClenMtf()))
    ensures MultiPrefix(tables) != [] && Within(MultiPrefix(tables), ClenMtf())
  {
    PrefixWithin(tables, ClenMtf());
    FirstTable(tables);
  }

  lemma {:induction false} FirstTable(tables: seq<seq<nat>>)
    requires tables != [] && |tables[0]| == ALPHABET_SIZE
    ensures |MultiPrefix(tables)| >= ALPHABET_SIZE
  {
    if |tables| > 1 { FirstTable(tables[..|tables| - 1]); }
  }

  lemma SomeSector(n: nat, size: nat)
    requires 0 < n && 0 < size
    ensures HuffmanGroups.Sectors(n, size) > 0
  {
  }

  lemma SmallLengths(tables: seq<seq<nat>>)
    requires SmallRows(tables)
    ensures forall g | 0 <= g < |tables| :: SmallCodes(tables[g])
  {
    ClenMtfIs();
    forall g, i | 0 <= g < |tables| && 0 <= i < |tables[g]| ensures tables[g][i] <= DJW_MAX_CODELEN {
      assert Within(tables[g], ClenMtf()) && tables[g][i] in tables[g];
    }
  }

  lemma Booked(k: Book, input: seq<nat>)
    requires 2 <= |k.tables| <= DJW_MAX_GROUPS && (forall g | 0 <= g < |k.tables| :: |k.tables[g]| == ALPHABET_SIZE)
    requires TablesCode(k.tables, input) && PrefixCoded(k.tables, k.cl) && SizeOk(k.size) && SelectorsCoded(k, |input|)
    ensures BookOk(k, input)
  {
    hide PrefixCoded, SelectorsCoded, TablesCode;
  }

  lemma PartsAre(k: Book, input: seq<nat>)
    requires BookOk(k, input)
    ensures CountBits(k, input) == ToBits(|k.tables| - 1, DJW_GROUP_BITS)
    ensures SizeBits(k, input) == ToBits(k.size / DJW_SECTORSZ_MULT - 1, DJW_SECTORSZ_BITS)
    ensures PrefixBits(k, input) == ClclenBits(k.cl) + CodeString(k.cl, Codes(MultiPrefix(k.tables), ClenMtf(), 0))
    ensures SelectorBits(k, input) == Numbers(k.sl, DJW_GBCLEN_BITS) + CodeString(k.sl, Codes(k.sel, Iota(|k.tables|), 0))
    ensures DataBits(k, input) == SectorBits(k.tables, k.sel, k.size, input)
  {
    hide Kraft, ToBits, Codes, CodeString, Numbers, ClclenBits, SectorBits, MultiPrefix, BookOk;
  }

  /** `djw_decode_prefix` and the tables of all groups. */
  method DecodeGroups(r: BitReader, t: Tables, ghost cl: seq<nat>, groups: nat) returns (ts: Option<seq<Tables>>, ghost tables: seq<seq<nat>>)
    requires r.Valid() && r.used > 0 && TablesOk(cl, t) && |t.inorder| == |cl| == DJW_TOTAL_CODES && |cl| <= |ClenMtf()| + 1
    modifies r
    ensures r.Valid()
    ensures var p := Read12(cl, MaxLen(cl), ALPHABET_SIZE * groups, ALPHABET_SIZE, old(r.Rest()), State([], 0, 0, 0, ClenMtf()));
      if p.Values? && |p.vals| == ALPHABET_SIZE * groups && AllHaveCode(Split(p.vals, groups))
      then ts.Some? && tables == Split(p.vals, groups) && AllTables(tables, ts.value) && r.Rest() == p.rest && r.used > 0
      else ts == None
  {
    hide TablesOk, HasCode, Read12, ClenMtf, MaxLen, Split;
    tables, ts := [], None;
    ClenMtfIs();
    TablesMax(cl, t);
    var mtf := InitClenMtf();
    ReadWithin(cl, t.maxLen, ALPHABET_SIZE * groups, ALPHABET_SIZE, r.Rest(), State([], 0, 0, 0, ClenMtf()));
    var values := Decode12(r, t, cl, DJW_TOTAL_CODES, mtf, ALPHABET_SIZE * groups, ALPHABET_SIZE);
    if values == None {
      return;
    }
    ValuesSmall(values.value);
    SplitSmall(values.value, groups);
    var clen := Split(values.value, groups);
    ts := BuildDecoders(clen);
    tables := clen;
  }

  /** Tables for each group. */
  method BuildDecoders(clen: seq<seq<nat>>) returns (ts: Option<seq<Tables>>)
    requires forall g | 0 <= g < |clen| :: |clen[g]| == ALPHABET_SIZE && SmallCodes(clen[g])
    ensures if AllHaveCode(clen) then ts.Some? && AllTables(clen, ts.value) else ts == None
  {
    hide TablesOk, HasCode;
    var all: seq<Tables> := [];
    for g := 0 to |clen|
      invariant |all| == g && AllTables(clen[..g], all) && forall h | 0 <= h < g :: HasCode(clen[h])
    {
      var any := AnyCode(clen[g]);
      if !any {
        return None;
      }
      assert SmallCodes(clen[g]);
      var one := BuildDecoder(clen[g], DJW_MAX_CODELEN);
      all := all + [one];
      assert clen[..g + 1] == clen[..g] + [clen[g]];
    }
    assert clen[..|clen|] == clen;
    ts := Some(all);
  }

  ghost predicate SmallCodes(clen: seq<nat>) {
    forall i | 0 <= i < |clen| :: clen[i] <= DJW_MAX_CODELEN
  }

  ghost predicate AllTables(tables: seq<seq<nat>>, ts: seq<Tables>) {
    |ts| == |tables| && forall g | 0 <= g < |ts| :: TablesOk(tables[g], ts[g]) && |ts[g].inorder| == |tables[g]| == ALPHABET_SIZE
  }

  lemma SplitSmall(vals: seq<nat>, groups: nat)
    requires |vals| == ALPHABET_SIZE * groups && forall i | 0 <= i < |vals| :: vals[i] <= DJW_MAX_CODELEN
    ensures forall g | 0 <= g < groups :: SmallCodes(Split(vals, groups)[g])
  {
    forall g, i | 0 <= g < groups && 0 <= i < ALPHABET_SIZE ensures Split(vals, groups)[g][i] <= DJW_MAX_CODELEN {
      assert Split(vals, groups)[g][i] == vals[ALPHABET_SIZE * g + i];
    }
  }

  /** The selectors. */
  method DecodeSelectors(r: BitReader, groups: nat, sectors: nat) returns (sel: Option<seq<nat>>)
    requires r.Valid() && r.used > 0 && 2 <= groups <= DJW_MAX_GROUPS
    modifies r
    ensures r.Valid()
    ensures var s := ReadNumbers(old(r.Rest()), groups + 1, DJW_GBCLEN_BITS, []);
      if s.Values? && |s.vals| == groups + 1 && HasCode(s.vals) then
        var q := Read12(s.vals, MaxLen(s.vals), sectors, 0, s.rest, State([], 0, 0, 0, Iota(groups)));
        if q.Values? then sel == Some(q.vals) && r.Rest() == q.rest && r.used > 0 else sel == None
      else sel == None
  {
    hide TablesOk, HasCode, Read12, MaxLen, ReadNumbers, Iota;
    NumbersSize(r.Rest(), groups + 1, DJW_GBCLEN_BITS, []);
    var clen := DecodeNumbers(r, groups + 1);
    if clen == None {
      return None;
    }
    var any := AnyCode(clen.value);
    if !any {
      return None;
    }
    var t := BuildDecoder(clen.value, DJW_MAX_GBCLEN);
    TablesMax(clen.value, t);
    var mtf := new nat[groups](i => i);
    IotaArray(mtf[..], groups);
    sel := Decode12(r, t, clen.value, DJW_TOTAL_CODES, mtf, sectors, 0);
  }

  method DecodeNumbers(r: BitReader, n: nat) returns (vs: Option<seq<nat>>)
    requires r.Valid() && r.used > 0
    modifies r
    ensures r.Valid()
    ensures var s := ReadNumbers(old(r.Rest()), n, DJW_GBCLEN_BITS, []);
      if s.Values? then vs == Some(s.vals) && r.Rest() == s.rest && r.used > 0 else vs == None
    ensures vs.Some? ==> forall i | 0 <= i < |vs.value| :: vs.value[i] <= DJW_MAX_GBCLEN
  {
    hide Value;
    ghost var s := ReadNumbers(r.Rest(), n, DJW_GBCLEN_BITS, []);
    var acc: seq<nat> := [];
    for i := 0 to n
      invariant r.Valid() && r.used > 0 && s == ReadNumbers(r.Rest(), n - i, DJW_GBCLEN_BITS, acc)
      invariant forall j | 0 <= j < |acc| :: acc[j] <= DJW_MAX_GBCLEN
    {
      ghost var b := r.Rest();
      var value := r.DecodeBits(DJW_GBCLEN_BITS);
      if value == None {
        return None;
      }
      ThreeBits(b[..DJW_GBCLEN_BITS]);
      acc := acc + [value.value];
    }
    vs := Some(acc);
  }

  lemma ThreeBits(b: seq<bool>)
    requires |b| == 3
    ensures Value(b) < 8
  {
    var y, z := b[..2], b[..1];
    assert y[..1] == z && z[..0] == [] && Value([]) == 0;
    assert Value(b) == 2 * Value(y) + BitValue(b[2]);
    assert Value(y) == 2 * Value(z) + BitValue(y[1]);
    assert Value(z) == 2 * Value([]) + BitValue(z[0]);
  }

  /** Sector after sector, each with the tables of its group. */
  method DecodeSectors(r: BitReader, ts: seq<Tables>, ghost tables: seq<seq<nat>>, sel: seq<nat>, size: nat, n: nat)
      returns (out: Option<seq<byte>>)
    requires r.Valid() && r.used > 0 && AllTables(tables, ts) && 0 < size
    requires |sel| == HuffmanGroups.Sectors(n, size) && Chooses(sel, |ts|)
    modifies r
    ensures r.Valid()
    ensures var d := ReadSectors(tables, sel, size, old(r.Rest()), n, []);
      if d.Values? then out.Some? && out.value == d.vals && r.Rest() == d.rest && r.used > 0 else out == None
  {
    hide TablesOk, MaxLen, ReadSymbols, HuffmanGroups.Sectors;
    ghost var d := ReadSectors(tables, sel, size, r.Rest(), n, []);
    var bytes: seq<byte> := [];
    var left, c := n, 0;
    assert sel[0..] == sel;
    while left > 0
      invariant r.Valid() && r.used > 0 && 0 <= left <= n && c <= |sel| && |sel[c..]| == HuffmanGroups.Sectors(left, size)
      invariant Chooses(sel[c..], |ts|) && d == ReadSectors(tables, sel[c..], size, r.Rest(), left, bytes)
      decreases left
    {
      SectorsStep(left, size);
      var k := Min(size, left);
      assert sel[c..][1..] == sel[c + 1..] && sel[c..][0] == sel[c];
      var part := DecodeSector(r, ts[sel[c]], tables[sel[c]], k);
      if part == None {
        return None;
      }
      bytes := bytes + part.value;
      left, c := left - k, c + 1;
    }
    out := Some(bytes);
  }

  lemma SectorsStep(n: nat, size: nat)
    requires 0 < n && 0 < size
    ensures HuffmanGroups.Sectors(n, size) == 1 + HuffmanGroups.Sectors(n - Min(size, n), size)
  {
  }

  /** `xd3_decode_huff` for several groups, after their number. */
  method DecodeMany(r: BitReader, n: nat, groups: nat) returns (out: Option<seq<byte>>)
    requires r.Valid() && 2 <= groups <= DJW_MAX_GROUPS && 0 < n
    modifies r
    ensures r.Valid()
    ensures var d := ReadMany(old(r.Rest()), n, groups);
      if d.Values? then out.Some? && out.value == d.vals && r.Rest() == d.rest && r.used > 0 else out == None
  {
    hide Value, ReadSized;
    var sizes := r.DecodeBits(DJW_SECTORSZ_BITS);
    if sizes == None {
      return None;
    }
    out := DecodeSized(r, n, (sizes.value + 1) * DJW_SECTORSZ_MULT, groups);
  }

  /** From the code for code lengths on. */
  method DecodeSized(r: BitReader, n: nat, size: nat, groups: nat) returns (out: Option<seq<byte>>)
    requires r.Valid() && 2 <= groups <= DJW_MAX_GROUPS && 0 < n && 0 < size
    modifies r
    ensures r.Valid()
    ensures var d := ReadSized(old(r.Rest()), n, size, groups);
      if d.Values? then out.Some? && out.value == d.vals && r.Rest() == d.rest && r.used > 0 else out == None
  {
    hide TablesOk, HasCode, Read12, ClenMtf, MaxLen, ReadClclen, ReadChosen, Split, AllHaveCode, AllTables;
    ClenMtfIs();
    var ct, cl := DecodeClclen(r);
    if ct == None {
      return None;
    }
    ReadWithin(cl, MaxLen(cl), ALPHABET_SIZE * groups, ALPHABET_SIZE, r.Rest(), State([], 0, 0, 0, ClenMtf()));
    var ts, tables := DecodeGroups(r, ct.value, cl, groups);
    if ts == None {
      return None;
    }
    TablesCount(tables, ts.value);
    out := DecodeChosen(r, ts.value, tables, size, n);
  }

  lemma TablesCount(tables: seq<seq<nat>>, ts: seq<Tables>)
    requires AllTables(tables, ts)
    ensures |ts| == |tables|
  {
  }

  /** From the selectors on. */
  method DecodeChosen(r: BitReader, ts: seq<Tables>, ghost tables: seq<seq<nat>>, size: nat, n: nat)
      returns (out: Option<seq<byte>>)
    requires r.Valid() && r.used > 0 && AllTables(tables, ts) && 0 < size && 0 < n && 2 <= |ts| <= DJW_MAX_GROUPS
    modifies r
    ensures r.Valid()
    ensures var d := ReadChosen(old(r.Rest()), n, size, tables);
      if d.Values? then out.Some? && out.value == d.vals && r.Rest() == d.rest && r.used > 0 else out == None
  {
    hide Value, TablesOk, HasCode, Read12, MaxLen, ReadNumbers, ReadSectors, Iota;
    var groups, sectors := |ts|, 1 + (n - 1) / size;
    SectorsIs(n, size);
    IotaIs(groups);
    NumbersSize(r.Rest(), groups + 1, DJW_GBCLEN_BITS, []);
    ghost var s := ReadNumbers(r.Rest(), groups + 1, DJW_GBCLEN_BITS, []);
    var sel := DecodeSelectors(r, groups, sectors);
    if sel == None {
      return None;
    }
    ReadWithin(s.vals, MaxLen(s.vals), sectors, 0, s.rest, State([], 0, 0, 0, Iota(groups)));
    ListBelow(Read12(s.vals, MaxLen(s.vals), sectors, 0, s.rest, State([], 0, 0, 0, Iota(groups))), groups);
    out := DecodeSectors(r, ts, tables, sel.value, size, n);
  }

  datatype Decoded = InvalidInput | Bytes(bytes: seq<byte>)

  /** `xd3_decode_huff`: `n` bytes of output. `used` is how much of the input was
      consumed. */
  method DecodeHuff(input: seq<byte>, n: nat) returns (r: Decoded, used: nat)
    ensures var d := ReadHuff(Unpack(input), n);
      if d.Values? then r.Bytes? && r.bytes == d.vals && used <= |input| && |input| - used == |d.rest| / 8
      else r == InvalidInput
  {
    hide Value, ReadOne, ReadMany, Unpack;
    used := 0;
    if n == 0 {
      return InvalidInput, used;
    }
    var reader := new BitReader(input);
    ghost var b := reader.Rest();
    var count := reader.DecodeBits(DJW_GROUP_BITS);
    if count == None {
      return InvalidInput, used;
    }
    ThreeBits(b[..DJW_GROUP_BITS]);
    var groups := count.value + 1;
    var out;
    if groups == 1 {
      out := DecodeSingle(reader, n);
    } else {
      out := DecodeMany(reader, n, groups);
    }
    if out == None {
      return InvalidInput, used;
    }
    reader.BytesRead();
    return Bytes(out.value), reader.pos;
  }

  /** What an encoder has written: the tables of a single group, or a book. */
  datatype Trace = One(clen: seq<nat>, cl: seq<nat>) | Many(book: Book)

  /** All groups have the same zeros; a single group always does. */
  ghost predicate Agree(t: Trace) {
    t.Many? ==> SameZeros(t.book.tables)
  }

  /** The tables are what `djw_build_prefix` makes of the frequencies that the plan
      gives. */
  ghost predicate Planned(t: Trace, plan: Plan, input: seq<byte>)
    requires PlanOk(plan, input)
  {
    if plan.groups == 1 then
      && t.One? && AllCoded(t.clen, input) && BuiltOn(input, ALPHABET_SIZE, t.clen, DJW_MAX_CODELEN)
      && (Codebook(input, t.clen, t.cl) ==> BuiltOn(Codes(t.clen, ClenMtf(), 0), DJW_TOTAL_CODES, t.cl, DJW_MAX_CLCLEN))
    else
      && t.Many? && (BookOk(t.book, input) ==> HeadBuilt(t.book, input))
      && |t.book.tables| == plan.groups && t.book.size == plan.size && t.book.sel == plan.sel
      && TablesCode(t.book.tables, input) && TablesFor(t.book.tables, input, plan.sel, plan.size)
  }

  /** Compression saves too little: told from the data alone, or with all that comes
      before the data. */
  ghost predicate SaveLittle(t: Trace, plan: Plan, input: seq<byte>, before: nat)
    requires PlanOk(plan, input) && Planned(t, plan, input)
  {
    match t
    case One(clen, cl) =>
      SavesLittle(input, clen, 0) || (Codebook(input, clen, cl) && SavesLittle(input, clen, OnPage(before + |HeadBits(clen, cl)| / 8)))
    case Many(k) =>
      SectorsSaveLittle(k, input, 0, 0) || (BookOk(k, input) && LittleAfterHead(k, input, before))
  }

  /** No group is rescaled, or every one, or every byte value occurs: as far as the
      plan and the input tell. */
  ghost predicate Alike(plan: Plan, input: seq<byte>)
    requires PlanOk(plan, input)
  {
    plan.groups > 1 ==> AlikeOrFull(PlanFreqs(plan, input), DJW_MAX_CODELEN)
  }

  /** Tables and all were written. */
  ghost predicate TraceOk(t: Trace, input: seq<byte>) {
    match t
    case One(clen, cl) => Codebook(input, clen, cl)
    case Many(k) => BookOk(k, input)
  }

  /** How many bytes that takes. */
  ghost function HuffSize(t: Trace, input: seq<byte>): nat
    requires TraceOk(t, input)
  {
    match t
    case One(clen, cl) => (|ToBits(0, DJW_GROUP_BITS) + OneBits(input, clen, cl)| + 7) / 8
    case Many(k) => (|ManyBits(k, input)| + 7) / 8
  }

  lemma PaddedSize(bytes: seq<byte>, bits: seq<bool>, pad: nat)
    requires pad < 8 && Unpack(bytes) == bits + Zeros(pad)
    ensures |bytes| == (|bits| + 7) / 8
  {
    hide Unpack;
    UnpackSize(bytes);
  }

  /** `xd3_encode_huff`. It gives up exactly when little is saved; what it writes is
      as long as the codes say, and decodes to the input, whatever follows, if the
      groups are alike. */
  method EncodeHuff(input: seq<byte>, inefficient: bool, before: nat, plan: Plan) returns (r: Encoded, ghost t: Trace)
    requires input != [] && PlanOk(plan, input)
    ensures Planned(t, plan, input)
    ensures r.NoSecond? <==> !inefficient && SaveLittle(t, plan, input, before)
    ensures r.Output? ==> TraceOk(t, input) && |r.bytes| == HuffSize(t, input)
    ensures r.Output? && Alike(plan, input) ==> forall more: seq<byte> :: Decodes(r.bytes, more, input)
  {
    hide *;
    AlikeOne(plan, input);
    if plan.groups == 1 {
      ghost var clen, cl;
      r, clen, cl := EncodeSingle(input, inefficient, before);
      t := One(clen, cl);
      PlannedOne(clen, cl, plan, input);
      SaveLittleIs(t, plan, input, before);
      if r.Output? {
        ghost var pad: nat :| pad < 8 && Unpack(r.bytes) == ToBits(0, DJW_GROUP_BITS) + OneBits(input, clen, cl) + Zeros(pad);
        PaddedSize(r.bytes, ToBits(0, DJW_GROUP_BITS) + OneBits(input, clen, cl), pad);
        OneSize(clen, cl, input);
        forall more: seq<byte> ensures Decodes(r.bytes, more, input) {
          OneDecodes(input, clen, cl, r.bytes, more, pad);
        }
      }
    } else {
      ghost var k;
      SeveralGroups(plan, input);
      r, k := EncodeMany(input, inefficient, before, plan);
      t := Many(k);
      PlannedMany(k, plan, input);
      AgreeIff(t, plan, input);
      SaveLittleIs(t, plan, input, before);
      AgreeMany(k);
      if r.Output? {
        ghost var pad: nat :| pad < 8 && Unpack(r.bytes) == ManyBits(k, input) + Zeros(pad);
        PaddedSize(r.bytes, ManyBits(k, input), pad);
        ManySize(k, input);
        if Alike(plan, input) {
          forall more: seq<byte> ensures Decodes(r.bytes, more, input) {
            ManyDecodes(k, input, r.bytes, more, pad);
          }
        }
      }
    }
  }

  lemma SeveralGroups(plan: Plan, input: seq<byte>)
    requires PlanOk(plan, input) && plan.groups != 1
    ensures plan.groups > 1
  {
  }

  lemma OneSize(clen: seq<nat>, cl: seq<nat>, input: seq<byte>)
    requires Codebook(input, clen, cl)
    ensures TraceOk(One(clen, cl), input)
    ensures HuffSize(One(clen, cl), input) == (|ToBits(0, DJW_GROUP_BITS) + OneBits(input, clen, cl)| + 7) / 8
  {
    hide Codebook, OneBits;
  }

  lemma ManySize(k: Book, input: seq<byte>)
    requires BookOk(k, input)
    ensures TraceOk(Many(k), input) && HuffSize(Many(k), input) == (|ManyBits(k, input)| + 7) / 8
  {
    hide BookOk, ManyBits;
  }

  lemma PlannedOne(clen: seq<nat>, cl: seq<nat>, plan: Plan, input: seq<byte>)
    requires PlanOk(plan, input) && plan.groups == 1
    requires AllCoded(clen, input) && BuiltOn(input, ALPHABET_SIZE, clen, DJW_MAX_CODELEN)
    requires Codebook(input, clen, cl) ==> BuiltOn(Codes(clen, ClenMtf(), 0), DJW_TOTAL_CODES, cl, DJW_MAX_CLCLEN)
    ensures Planned(One(clen, cl), plan, input)
  {
    hide AllCoded, BuiltOn, Codebook, Codes, ClenMtf;
  }

  lemma PlannedMany(k: Book, plan: Plan, input: seq<byte>)
    requires PlanOk(plan, input) && plan.groups > 1 && |k.tables| == plan.groups && k.size == plan.size && k.sel == plan.sel
    requires TablesCode(k.tables, input) && TablesFor(k.tables, input, plan.sel, plan.size)
    requires BookOk(k, input) ==> HeadBuilt(k, input)
    ensures Planned(Many(k), plan, input)
  {
    hide TablesCode, TablesFor, BookOk, HeadBuilt;
  }

  lemma SaveLittleIs(t: Trace, plan: Plan, input: seq<byte>, before: nat)
    requires PlanOk(plan, input) && Planned(t, plan, input)
    ensures t.One? ==> (SaveLittle(t, plan, input, before) <==>
      SavesLittle(input, t.clen, 0)
      || (Codebook(input, t.clen, t.cl) && SavesLittle(input, t.clen, OnPage(before + |HeadBits(t.clen, t.cl)| / 8))))
    ensures t.Many? ==> (SaveLittle(t, plan, input, before) <==>
      SectorsSaveLittle(t.book, input, 0, 0) || (BookOk(t.book, input) && LittleAfterHead(t.book, input, before)))
  {
    hide Codebook, AllCoded, BookOk, TablesFor, TablesCode;
  }

  lemma AgreeMany(k: Book)
    ensures Agree(Many(k)) <==> SameZeros(k.tables)
  {
    hide SameZeros;
  }

  lemma AlikeOne(plan: Plan, input: seq<byte>)
    requires PlanOk(plan, input)
    ensures plan.groups == 1 ==> Alike(plan, input)
  {
  }

  /** The bytes decode to the input, and no more and no fewer are used. */
  ghost predicate Decodes(bytes: seq<byte>, more: seq<byte>, input: seq<byte>) {
    var d := ReadHuff(Unpack(bytes + more), |input|);
    d.Values? && d.vals == input && |d.rest| / 8 == |more|
  }

  /** Whenever the encoder succeeds, and the groups are alike, the decoder gets the
      input back and uses the encoder's bytes, no more and no fewer, whatever
      follows them. */
  method RoundTrip(input: seq<byte>, inefficient: bool, before: nat, plan: Plan, more: seq<byte>)
      returns (e: Encoded, ghost t: Trace, d: Decoded, used: nat)
    requires input != [] && PlanOk(plan, input)
    ensures Planned(t, plan, input) && (e.NoSecond? <==> !inefficient && SaveLittle(t, plan, input, before))
    ensures e.Output? && Alike(plan, input) ==> d == Bytes(input) && used == |e.bytes|
  {
    hide ReadHuff, Planned, Alike, Unpack, SaveLittle;
    d, used := InvalidInput, 0;
    e, t := EncodeHuff(input, inefficient, before, plan);
    if e.Output? {
      d, used := DecodeHuff(e.bytes + more, |input|);
      assert Alike(plan, input) ==> Decodes(e.bytes, more, input);
    }
  }

  lemma OneDecodes(input: seq<byte>, clen: seq<nat>, cl: seq<nat>, bytes: seq<byte>, more: seq<byte>, pad: nat)
    requires input != [] && Codebook(input, clen, cl) && pad < 8
    requires Unpack(bytes) == ToBits(0, DJW_GROUP_BITS) + OneBits(input, clen, cl) + Zeros(pad)
    ensures Decodes(bytes, more, input)
  {
    hide Unpack, Value, ToBits, OneBits, Codebook, ReadOne, ReadMany;
    UnpackAppend(bytes, more);
    GroupBits();
    var g, x, rest := ToBits(0, DJW_GROUP_BITS), OneBits(input, clen, cl), Zeros(pad) + Unpack(more);
    OneBack(input, clen, cl, rest);
    UnpackSize(more);
    var b := Unpack(bytes + more);
    assert b == g + (x + rest);
    FirstBits(g, x + rest);
  }

  lemma ManyDecodes(k: Book, input: seq<byte>, bytes: seq<byte>, more: seq<byte>, pad: nat)
    requires input != [] && BookOk(k, input) && SameZeros(k.tables) && pad < 8
    requires Unpack(bytes) == ManyBits(k, input) + Zeros(pad)
    ensures Decodes(bytes, more, input)
  {
    hide Unpack, ReadHuff, BookOk, SameZeros, ManyBits;
    UnpackAppend(bytes, more);
    UnpackSize(more);
    ManyBack(k, input, Zeros(pad) + Unpack(more));
    Regroup3(ManyBits(k, input), Zeros(pad), Unpack(more));
  }

  lemma UnpackSize(s: seq<byte>)
    ensures |Unpack(s)| == 8 * |s|
  {
  }

  lemma TableBuilt(freq: seq<nat>, clen: seq<nat>, max: nat)
    requires Built(freq, clen, max)
    ensures GroupTable(freq, clen, max)
  {
    hide Overflows, WithSecond;
    BuiltCodes(freq, clen, max);
  }

  /** When groups agree: all of them or none have frequencies so far apart that a
      code grows too long, or every symbol has a code anyway. */
  lemma AgreeIff(t: Trace, plan: Plan, input: seq<byte>)
    requires input != [] && PlanOk(plan, input) && Planned(t, plan, input) && t.Many?
    ensures Agree(t) <==> Alike(plan, input)
  {
    hide Built, GroupTable, WithSecond, AlikeOrFull, SameZeros, GroupFreq, TablesCode, HeadBuilt;
    var freqs := PlanFreqs(plan, input);
    GroupShows(input, plan.sel, plan.size, 0);
    forall g | 0 <= g < |freqs| ensures SameSymbols(freqs[0], freqs[g]) {
      GroupShows(input, plan.sel, plan.size, g);
    }
    forall g | 0 <= g < |freqs| ensures GroupTable(freqs[g], t.book.tables[g], DJW_MAX_CODELEN) {
      TableBuilt(freqs[g], t.book.tables[g], DJW_MAX_CODELEN);
    }
    SameZerosIff(freqs, t.book.tables, DJW_MAX_CODELEN);
  }

  /** Groups of too few bytes for a code to grow too long are alike: any input
      shorter than that, for one. */
  lemma ShortAlike(plan: Plan, input: seq<byte>)
    requires PlanOk(plan, input) && input != []
    requires plan.groups > 1 ==> forall g | 0 <= g < plan.groups ::
      |GroupBytes(input, plan.sel, plan.size, g)| + ALPHABET_SIZE + 1 < Fib(DJW_MAX_CODELEN + 3)
    ensures Alike(plan, input)
  {
    hide Fib, GroupBytes, Overflows;
    if plan.groups > 1 {
      var freqs := PlanFreqs(plan, input);
      forall g | 0 <= g < |freqs| ensures !Overflows(freqs[g], DJW_MAX_CODELEN) {
        FewBytes(input, plan.sel, plan.size, g);
      }
    }
  }
}
