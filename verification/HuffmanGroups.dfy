/** The Huffman secondary compressor with several groups: sectors of the input,
    each coded with the table of one group. */
module HuffmanGroups {
  import opened Bytes
  import opened BitIO
  import opened Canonical
  import opened MoveToFront
  import opened RunDecoder
  import opened RunRoundTrip
  import opened GroupPrefix
  import opened Huffman
  import opened HuffmanCodec

  const DJW_MAX_GROUPS := 8
  const DJW_SECTORSZ_MULT := 5
  const DJW_SECTORSZ_BITS := 5
  const DJW_MAX_GBCLEN := 7
  const DJW_GBCLEN_BITS := 3

  /** Numbers of `w` bits each. */
  function Numbers(vs: seq<nat>, w: nat): seq<bool> {
    if vs == [] then [] else ToBits(vs[0], w) + Numbers(vs[1..], w)
  }

  function ReadNumbers(b: seq<bool>, k: nat, w: nat, acc: seq<nat>): Result
    decreases k
  {
    if k == 0 then Values(acc, b)
    else if |b| < w then Bad
    else ReadNumbers(b[w..], k - 1, w, acc + [Value(b[..w])])
  }

  lemma {:induction false} NumbersBack(vs: seq<nat>, w: nat, rest: seq<bool>, acc: seq<nat>)
    requires forall i | 0 <= i < |vs| :: vs[i] < Pow2(w)
    ensures ReadNumbers(Numbers(vs, w) + rest, |vs|, w, acc) == Values(acc + vs, rest)
  {
    hide Value, ToBits, Pow2;
    if vs == [] {
      assert Numbers(vs, w) + rest == rest && acc + vs == acc;
    } else {
      var v, t := ToBits(vs[0], w), vs[1..];
      var b := Numbers(vs, w) + rest;
      ValueToBits(vs[0], w);
      assert b == v + (Numbers(t, w) + rest);
      assert b[..w] == v && b[w..] == Numbers(t, w) + rest;
      NumbersBack(t, w, rest, acc + [vs[0]]);
      assert acc + [vs[0]] + t == acc + vs;
    }
  }

  function Iota(n: nat): (l: seq<nat>)
    ensures |l| == n && (forall i | 0 <= i < n :: l[i] == i) && forall x :: x in l <==> 0 <= x < n
  {
    if n == 0 then [] else Iota(n - 1) + [n - 1]
  }

  /** How many sectors of `size` bytes `n` bytes take. */
  function Sectors(n: nat, size: nat): nat
    requires 0 < size
  {
    if n == 0 then 0 else 1 + Sectors(if n < size then 0 else n - size, size)
  }

  lemma {:induction false} SectorsIs(n: nat, size: nat)
    requires 0 < size && 0 < n
    ensures Sectors(n, size) == 1 + (n - 1) / size
  {
    var q := Sectors(n, size) - 1;
    SectorsBetween(n, size);
    Quotient(n - 1, size, q);
  }

  lemma {:induction false} SectorsBetween(n: nat, size: nat)
    requires 0 < size && 0 < n
    ensures var q := Sectors(n, size) - 1; 0 <= q && q * size < n <= q * size + size
  {
    if n > size {
      SectorsBetween(n - size, size);
      var q := Sectors(n - size, size) - 1;
      assert (q + 1) * size == q * size + size;
    } else {
      assert Sectors(0, size) == 0;
    }
  }

  ghost predicate Chooses(sel: seq<nat>, groups: nat) {
    forall i | 0 <= i < |sel| :: sel[i] < groups
  }

  lemma CodedParts(tables: seq<seq<nat>>, input: seq<nat>, n: nat)
    requires n <= |input| && forall g | 0 <= g < |tables| :: AllCoded(tables[g], input)
    ensures forall g | 0 <= g < |tables| :: AllCoded(tables[g], input[..n]) && AllCoded(tables[g], input[n..])
  {
  }

  /** The sectors, each with the table chosen for it. */
  function SectorBits(tables: seq<seq<nat>>, sel: seq<nat>, size: nat, input: seq<nat>): seq<bool>
    requires 0 < size && |sel| == Sectors(|input|, size) && Chooses(sel, |tables|)
    requires forall g | 0 <= g < |tables| :: AllCoded(tables[g], input)
    decreases |input|
  {
    if input == [] then []
    else
      var n := Min(size, |input|);
      CodedParts(tables, input, n);
      CodeString(tables[sel[0]], input[..n]) + SectorBits(tables, sel[1..], size, input[n..])
  }

  /** Decode `n` more symbols. */
  ghost function ReadSectors(tables: seq<seq<nat>>, sel: seq<nat>, size: nat, b: seq<bool>, n: nat, acc: seq<nat>): Result
    requires 0 < size && |sel| == Sectors(n, size) && Chooses(sel, |tables|)
    decreases n
  {
    if n == 0 then Values(acc, b)
    else
      var k, t := Min(size, n), tables[sel[0]];
      var d := ReadSymbols(t, MaxLen(t), b, k, []);
      if d == Bad then Bad else ReadSectors(tables, sel[1..], size, d.rest, n - k, acc + d.vals)
  }

  lemma {:induction false} SectorsBack(tables: seq<seq<nat>>, sel: seq<nat>, size: nat, input: seq<nat>,
                                       rest: seq<bool>, acc: seq<nat>)
    requires 0 < size && |sel| == Sectors(|input|, size) && Chooses(sel, |tables|)
    requires forall g | 0 <= g < |tables| :: AllCoded(tables[g], input) && Kraft(tables[g], MaxLen(tables[g]))
    ensures ReadSectors(tables, sel, size, SectorBits(tables, sel, size, input) + rest, |input|, acc) == Values(acc + input, rest)
    decreases |input|
  {
    hide Kraft, CodeString, ReadSymbols, MaxLen;
    var b := SectorBits(tables, sel, size, input) + rest;
    if input == [] {
      assert b == rest && acc + input == acc;
    } else {
      var n, t := Min(size, |input|), tables[sel[0]];
      var x, y := input[..n], input[n..];
      var more := SectorBits(tables, sel[1..], size, y) + rest;
      assert b == CodeString(t, x) + more;
      SymbolsBack(t, MaxLen(t), x, more, []);
      assert [] + x == x && acc + x + y == acc + input;
      SectorsBack(tables, sel[1..], size, y, rest, acc + x);
    }
  }

  /** The code lengths of all groups, one group after the other. */
  function Split(vals: seq<nat>, groups: nat): (tables: seq<seq<nat>>)
    requires |vals| == ALPHABET_SIZE * groups
    ensures |tables| == groups && forall g | 0 <= g < groups :: |tables[g]| == ALPHABET_SIZE
  {
    seq(groups, g requires 0 <= g < groups => vals[ALPHABET_SIZE * g..ALPHABET_SIZE * g + ALPHABET_SIZE])
  }

  lemma {:induction false} ConcatAt(tables: seq<seq<nat>>, g: nat)
    requires Rows(tables, ALPHABET_SIZE) && g < |tables|
    ensures |Concat(tables)| == ALPHABET_SIZE * |tables|
    ensures Concat(tables)[ALPHABET_SIZE * g..ALPHABET_SIZE * g + ALPHABET_SIZE] == tables[g]
  {
    ConcatSize(tables, ALPHABET_SIZE);
    var n := |tables| - 1;
    if g < n {
      var f, t := Concat(tables[..n]), tables[n];
      ConcatAt(tables[..n], g);
      assert (f + t)[ALPHABET_SIZE * g..ALPHABET_SIZE * g + ALPHABET_SIZE] == f[ALPHABET_SIZE * g..ALPHABET_SIZE * g + ALPHABET_SIZE];
    }
  }

  lemma SplitConcat(tables: seq<seq<nat>>)
    requires Rows(tables, ALPHABET_SIZE)
    ensures |Concat(tables)| == ALPHABET_SIZE * |tables| && Split(Concat(tables), |tables|) == tables
  {
    ConcatAt(tables, 0);
    forall g | 0 <= g < |tables| ensures Split(Concat(tables), |tables|)[g] == tables[g] {
      ConcatAt(tables, g);
    }
  }

  ghost predicate AllHaveCode(tables: seq<seq<nat>>) {
    forall g | 0 <= g < |tables| :: HasCode(tables[g])
  }

  /** `groups` groups, after their number: sector size, the code for code lengths,
      the lengths of all groups, the lengths of the code for selectors, the
      selectors, and `n` symbols. */
  ghost function ReadMany(b: seq<bool>, n: nat, groups: nat): Result {
    if |b| < DJW_SECTORSZ_BITS then Bad
    else
      var size := (Value(b[..DJW_SECTORSZ_BITS]) + 1) * DJW_SECTORSZ_MULT;
      ReadSized(b[DJW_SECTORSZ_BITS..], n, size, groups)
  }

  /** The same from the code for code lengths on. */
  ghost function ReadSized(b: seq<bool>, n: nat, size: nat, groups: nat): Result
    requires 0 < size
  {
    var cl := ReadClclen(b);
    if cl == Bad || !HasCode(cl.vals) then Bad
    else
      ClenMtfIs();
      var start := State([], 0, 0, 0, ClenMtf());
      ReadWithin(cl.vals, MaxLen(cl.vals), ALPHABET_SIZE * groups, ALPHABET_SIZE, cl.rest, start);
      var p := Read12(cl.vals, MaxLen(cl.vals), ALPHABET_SIZE * groups, ALPHABET_SIZE, cl.rest, start);
      if p == Bad || !AllHaveCode(Split(p.vals, groups)) then Bad else ReadChosen(p.rest, n, size, Split(p.vals, groups))
  }

  /** The same from the selectors on. */
  ghost function ReadChosen(b: seq<bool>, n: nat, size: nat, tables: seq<seq<nat>>): Result
    requires 0 < size
  {
    var groups := |tables|;
    NumbersSize(b, groups + 1, DJW_GBCLEN_BITS, []);
    var s := ReadNumbers(b, groups + 1, DJW_GBCLEN_BITS, []);
    if groups == 0 || s == Bad || !HasCode(s.vals) then Bad
    else
      var start := State([], 0, 0, 0, Iota(groups));
      ReadWithin(s.vals, MaxLen(s.vals), Sectors(n, size), 0, s.rest, start);
      var q := Read12(s.vals, MaxLen(s.vals), Sectors(n, size), 0, s.rest, start);
      ListBelow(q, groups);
      if q == Bad then Bad else ReadSectors(tables, q.vals, size, q.rest, n, [])
  }

  lemma ListBelow(q: Result, groups: nat)
    requires 0 < groups && (q.Values? ==> forall v | v in q.vals :: v in Iota(groups) || v == 0)
    ensures q.Values? ==> Chooses(q.vals, groups)
  {
    if q.Values? {
      forall i | 0 <= i < |q.vals| ensures q.vals[i] < groups { assert q.vals[i] in q.vals; }
    }
  }

  lemma {:induction false} NumbersSize(b: seq<bool>, k: nat, w: nat, acc: seq<nat>)
    ensures var r := ReadNumbers(b, k, w, acc); r.Values? ==> |r.vals| == |acc| + k
    decreases k
  {
    if k > 0 && |b| >= w { NumbersSize(b[w..], k - 1, w, acc + [Value(b[..w])]); }
  }

  /** `xd3_decode_huff` on the bits to come. */
  ghost function ReadHuff(b: seq<bool>, n: nat): Result {
    if n == 0 || |b| < DJW_GROUP_BITS then Bad
    else
      var groups := Value(b[..DJW_GROUP_BITS]) + 1;
      if groups == 1 then ReadOne(b[DJW_GROUP_BITS..], n) else ReadMany(b[DJW_GROUP_BITS..], n, groups)
  }

  /** Codes for the input in every group, for the code lengths, and for the
      selectors. */
  datatype Book = Book(tables: seq<seq<nat>>, cl: seq<nat>, size: nat, sel: seq<nat>, sl: seq<nat>)

  ghost predicate BookOk(k: Book, input: seq<nat>) {
    && 2 <= |k.tables| <= DJW_MAX_GROUPS && Rows(k.tables, ALPHABET_SIZE)
    && TablesCode(k.tables, input) && PrefixCoded(k.tables, k.cl)
    && SizeOk(k.size) && SelectorsCoded(k, |input|)
  }

  ghost predicate TablesCode(tables: seq<seq<nat>>, input: seq<nat>) {
    forall g | 0 <= g < |tables| :: AllCoded(tables[g], input) && Kraft(tables[g], DJW_MAX_CODELEN)
  }

  predicate SizeOk(size: nat) {
    DJW_SECTORSZ_MULT <= size && size / DJW_SECTORSZ_MULT <= 32 && size % DJW_SECTORSZ_MULT == 0
  }

  ghost predicate PrefixCoded(tables: seq<seq<nat>>, cl: seq<nat>) {
    && tables != [] && (forall g | 0 <= g < |tables| :: Within(tables[g], ClenMtf()))
    && Within(MultiPrefix(tables), ClenMtf()) && MultiPrefix(tables) != []
    && |cl| == DJW_TOTAL_CODES && Kraft(cl, DJW_MAX_CLCLEN)
    && AllCoded(cl, Codes(MultiPrefix(tables), ClenMtf(), 0))
  }

  ghost predicate SelectorsCoded(k: Book, n: nat) {
    && 0 < k.size && |k.sel| == Sectors(n, k.size) && Chooses(k.sel, |k.tables|) && Within(k.sel, Iota(|k.tables|))
    && |k.sl| == |k.tables| + 1 && Kraft(k.sl, DJW_MAX_GBCLEN) && (forall i | 0 <= i < |k.sl| :: k.sl[i] <= DJW_MAX_GBCLEN)
    && AllCoded(k.sl, Codes(k.sel, Iota(|k.tables|), 0)) && HasCode(k.sl)
  }

  /** What `xd3_encode_huff` writes for several groups, before the padding. */
  ghost function ManyBits(k: Book, input: seq<nat>): seq<bool>
    requires BookOk(k, input)
  {
    CountBits(k, input) + (SizeBits(k, input) + (PrefixBits(k, input) + (SelectorBits(k, input) + DataBits(k, input))))
  }

  ghost function CountBits(k: Book, input: seq<nat>): seq<bool>
    requires BookOk(k, input)
  {
    ToBits(|k.tables| - 1, DJW_GROUP_BITS)
  }

  ghost function SizeBits(k: Book, input: seq<nat>): seq<bool>
    requires BookOk(k, input)
  {
    ToBits(k.size / DJW_SECTORSZ_MULT - 1, DJW_SECTORSZ_BITS)
  }

  ghost function PrefixBits(k: Book, input: seq<nat>): seq<bool>
    requires BookOk(k, input)
  {
    ClclenBits(k.cl) + CodeString(k.cl, Codes(MultiPrefix(k.tables), ClenMtf(), 0))
  }

  ghost function SelectorBits(k: Book, input: seq<nat>): seq<bool>
    requires BookOk(k, input)
  {
    Numbers(k.sl, DJW_GBCLEN_BITS) + CodeString(k.sl, Codes(k.sel, Iota(|k.tables|), 0))
  }

  ghost function DataBits(k: Book, input: seq<nat>): seq<bool>
    requires BookOk(k, input)
  {
    SectorBits(k.tables, k.sel, k.size, input)
  }

  /** Nothing is left out of the selectors. */
  lemma {:induction false} KeptEvery(full: seq<nat>, n: nat)
    requires n <= |full|
    ensures Kept(full, 0, n) == full[n..] && ZerosAgree(full, 0)
    decreases |full| - n
  {
    if n < |full| {
      KeptEvery(full, n + 1);
      assert full[n..] == [full[n]] + full[n + 1..];
    }
  }

  /** From the selectors on. */
  lemma ChosenBack(k: Book, input: seq<nat>, rest: seq<bool>)
    requires BookOk(k, input)
    ensures ReadChosen(SelectorBits(k, input) + (DataBits(k, input) + rest), |input|, k.size, k.tables) == Values(input, rest)
  {
    hide Kraft, CodeString, Codes, Read12, MaxLen, Numbers, ReadNumbers, SectorBits, ReadSectors, Kept, ZerosAgree, Rows,
      PrefixCoded, Iota, Within;
    var groups, data := |k.tables|, DataBits(k, input) + rest;
    var cs := Codes(k.sel, Iota(groups), 0);
    Regroup3(Numbers(k.sl, DJW_GBCLEN_BITS), CodeString(k.sl, cs), data);
    assert Pow2(3) == 8;
    NumbersBack(k.sl, DJW_GBCLEN_BITS, CodeString(k.sl, cs) + data, []);
    assert [] + k.sl == k.sl;
    KeptEvery(k.sel, 0);
    assert k.sel[0..] == k.sel;
    MaxKraft(k.sl, DJW_MAX_GBCLEN);
    IotaIs(groups);
    RunRoundTrip.RoundTrip(k.sl, MaxLen(k.sl), k.sel, 0, Iota(groups), data);
    forall g | 0 <= g < groups ensures Kraft(k.tables[g], MaxLen(k.tables[g])) {
      MaxKraft(k.tables[g], DJW_MAX_CODELEN);
    }
    SectorsBack(k.tables, k.sel, k.size, input, rest, []);
    assert [] + input == input;
  }

  lemma IotaIs(n: nat)
    ensures |Iota(n)| == n
  {
  }

  /** The round trip on bits, when the groups have the same zeros: what follows is
      left alone. */
  lemma ManyBack(k: Book, input: seq<nat>, rest: seq<bool>)
    requires BookOk(k, input) && SameZeros(k.tables) && input != []
    ensures ReadHuff(ManyBits(k, input) + rest, |input|) == Values(input, rest)
  {
    hide Value, ReadOne, ReadMany, CountBits, SizeBits, PrefixBits, SelectorBits, DataBits, BookOk, SameZeros;
    CountBack(k, input);
    var tail := PrefixBits(k, input) + (SelectorBits(k, input) + (DataBits(k, input) + rest));
    Regroup(CountBits(k, input), SizeBits(k, input), PrefixBits(k, input), SelectorBits(k, input), DataBits(k, input), rest);
    FirstBits(CountBits(k, input), SizeBits(k, input) + tail);
    SizedBack(k, input, rest);
  }

  lemma Regroup(a: seq<bool>, b: seq<bool>, c: seq<bool>, d: seq<bool>, e: seq<bool>, rest: seq<bool>)
    ensures a + (b + (c + (d + e))) + rest == a + (b + (c + (d + (e + rest))))
  {
  }

  lemma FirstBits(g: seq<bool>, t: seq<bool>)
    ensures (g + t)[..|g|] == g && (g + t)[|g|..] == t
  {
  }

  lemma CountBack(k: Book, input: seq<nat>)
    requires BookOk(k, input)
    ensures |CountBits(k, input)| == DJW_GROUP_BITS && Value(CountBits(k, input)) + 1 == |k.tables| > 1
    ensures |SizeBits(k, input)| == DJW_SECTORSZ_BITS && (Value(SizeBits(k, input)) + 1) * DJW_SECTORSZ_MULT == k.size
  {
    hide ToBits, Value, BookOk, PrefixCoded, SelectorsCoded, TablesCode, Rows, Pow2;
    BookIs(k, input);
  }

  lemma BookIs(k: Book, input: seq<nat>)
    requires BookOk(k, input)
    ensures 2 <= |k.tables| <= DJW_MAX_GROUPS && SizeOk(k.size) && PrefixCoded(k.tables, k.cl) && SelectorsCoded(k, |input|)
    ensures TablesCode(k.tables, input) && Rows(k.tables, ALPHABET_SIZE)
    ensures var g, s := |k.tables| - 1, k.size / DJW_SECTORSZ_MULT - 1;
      && 0 <= g < Pow2(DJW_GROUP_BITS) && 0 <= s < Pow2(DJW_SECTORSZ_BITS) && (s + 1) * DJW_SECTORSZ_MULT == k.size
      && Value(ToBits(g, DJW_GROUP_BITS)) == g && Value(ToBits(s, DJW_SECTORSZ_BITS)) == s
  {
    hide PrefixCoded, SelectorsCoded, TablesCode, Rows;
    assert Pow2(3) == 8 && Pow2(5) == 32;
    ValueToBits(|k.tables| - 1, DJW_GROUP_BITS);
    ValueToBits(k.size / DJW_SECTORSZ_MULT - 1, DJW_SECTORSZ_BITS);
  }

  /** From the sector size on. */
  lemma SizedBack(k: Book, input: seq<nat>, rest: seq<bool>)
    requires BookOk(k, input) && SameZeros(k.tables) && input != []
    ensures ReadMany(SizeBits(k, input) + (PrefixBits(k, input) + (SelectorBits(k, input) + (DataBits(k, input) + rest))),
                     |input|, |k.tables|) == Values(input, rest)
  {
    hide Value, SizeBits, PrefixBits, ReadSized, SelectorBits, DataBits, BookOk, SameZeros;
    CountBack(k, input);
    FirstBits(SizeBits(k, input), PrefixBits(k, input) + (SelectorBits(k, input) + (DataBits(k, input) + rest)));
    PrefixBack(k, input, rest);
  }

  /** From the code for code lengths on. */
  lemma PrefixBack(k: Book, input: seq<nat>, rest: seq<bool>)
    requires BookOk(k, input) && SameZeros(k.tables) && input != []
    ensures 0 < k.size
    ensures ReadSized(PrefixBits(k, input) + (SelectorBits(k, input) + (DataBits(k, input) + rest)), |input|, k.size, |k.tables|)
      == Values(input, rest)
  {
    hide Value, ReadClclen, ClclenBits, Read12, ReadChosen, SelectorBits, DataBits, Codes, CodeString, Kraft,
      ClenMtf, MaxLen, Rows, Split, Concat, MultiPrefix, SameZeros;
    var cs, more := Codes(MultiPrefix(k.tables), ClenMtf(), 0), SelectorBits(k, input) + (DataBits(k, input) + rest);
    Regroup3(ClclenBits(k.cl), CodeString(k.cl, cs), more);
    PrefixIs(k.tables, k.cl);
    ClclenBack(k.cl, CodeString(k.cl, cs) + more);
    LengthsBack(k.tables, k.cl, more);
    SplitConcat(k.tables);
    AllCodes(k, input);
    ChosenBack(k, input, rest);
  }

  lemma Regroup3(a: seq<bool>, b: seq<bool>, c: seq<bool>)
    ensures (a + b) + c == a + (b + c)
  {
  }

  lemma PrefixIs(tables: seq<seq<nat>>, cl: seq<nat>)
    requires PrefixCoded(tables, cl)
    ensures |cl| == DJW_TOTAL_CODES && HasCode(cl) && forall i | 0 <= i < |cl| :: cl[i] <= DJW_MAX_CLCLEN
  {
    hide Codes;
    CodesSome(MultiPrefix(tables), ClenMtf());
    CodedHasCode(cl, Codes(MultiPrefix(tables), ClenMtf(), 0));
  }

  lemma LengthsBack(tables: seq<seq<nat>>, cl: seq<nat>, rest: seq<bool>)
    requires PrefixCoded(tables, cl) && Rows(tables, ALPHABET_SIZE) && SameZeros(tables)
    ensures 0 < |ClenMtf()| && |cl| <= |ClenMtf()| + 1 && |Concat(tables)| == ALPHABET_SIZE * |tables|
    ensures Read12(cl, MaxLen(cl), ALPHABET_SIZE * |tables|, ALPHABET_SIZE,
                   CodeString(cl, Codes(MultiPrefix(tables), ClenMtf(), 0)) + rest, State([], 0, 0, 0, ClenMtf()))
      == Values(Concat(tables), rest)
  {
    hide Codes, CodeString, Read12, MaxLen, ClenMtf, Kraft, MultiPrefix, SameZeros, Rows, Concat;
    ClenMtfIs();
    MaxKraft(cl, DJW_MAX_CLCLEN);
    SplitConcat(tables);
    RowsGive(tables);
    SameZerosKept(tables, ALPHABET_SIZE);
    RunRoundTrip.RoundTrip(cl, MaxLen(cl), Concat(tables), ALPHABET_SIZE, ClenMtf(), rest);
  }

  lemma RowsGive(tables: seq<seq<nat>>)
    requires Rows(tables, ALPHABET_SIZE)
    ensures tables != []
  {
  }

  lemma AllCodes(k: Book, input: seq<nat>)
    requires BookOk(k, input) && input != []
    ensures AllHaveCode(k.tables)
  {
    hide Kraft, PrefixCoded, SelectorsCoded;
    forall g | 0 <= g < |k.tables| ensures HasCode(k.tables[g]) {
      CodedHasCode(k.tables[g], input);
    }
  }
}
