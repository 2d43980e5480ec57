/** The default instruction code table (section 5.6 of RFC 3284). */
module CodeTable {
  import opened Bytes
  import opened Delta

  const ADD_SIZES := 17
  const CPY_SIZES := 15
  const NEAR_MODES := 4
  const SAME_MODES := 3
  const CPY_MODES := 2 + NEAR_MODES + SAME_MODES
  const MIN_MATCH := 4
  const ADDCOPY_ADD_MAX := 4
  const ADDCOPY_NEAR_CPY_MAX := 6
  const ADDCOPY_SAME_CPY_MAX := 4

  datatype DInst = DInst(type1: nat, size1: nat, type2: nat, size2: nat)

  /** The table in closed form; a size of 0 is read from the instruction stream. */
  function Entry(c: byte): (d: DInst)
    ensures ADD <= d.type1 < CPY + CPY_MODES && d.type2 < CPY + CPY_MODES
  {
    if c == 0 then DInst(RUN, 0, NOOP, 0)
    else if c < 19 then DInst(ADD, c - 1, NOOP, 0)
    else if c < 163 then
      var r := (c - 19) % 16;
      DInst(CPY + (c - 19) / 16, if r == 0 then 0 else r + 3, NOOP, 0)
    else if c < 235 then
      var r := (c - 163) % 12;
      DInst(ADD, 1 + r / 3, CPY + (c - 163) / 12, 4 + r % 3)
    else if c < 247 then DInst(ADD, 1 + (c - 235) % 4, CPY + 6 + (c - 235) / 4, 4)
    else DInst(CPY + (c - 247), 4, ADD, 1)
  }

  /** First ADD-COPY code of a mode. */
  function AddCopyBase(mode: nat): nat {
    if mode <= 6 then 163 + 12 * mode else 235 + 4 * (mode - 6)
  }

  /** Largest copy size of a mode's ADD-COPY codes. */
  function AddCopyMax(mode: nat): nat {
    if mode < 2 + NEAR_MODES then ADDCOPY_NEAR_CPY_MAX else ADDCOPY_SAME_CPY_MAX
  }

  function AddCopyCode(mode: nat, add: nat, cpy: nat): int {
    AddCopyBase(mode) + (if mode < 6 then 3 * (add - 1) else add - 1) + (cpy - 4)
  }

  lemma EntryAddCopy(mode: nat, add: nat, cpy: nat)
    requires mode < CPY_MODES && 1 <= add <= 4 && 4 <= cpy <= AddCopyMax(mode)
    ensures 163 <= AddCopyCode(mode, add, cpy) < 247
    ensures Entry(AddCopyCode(mode, add, cpy)) == DInst(ADD, add, CPY + mode, cpy)
  {
    var c := AddCopyCode(mode, add, cpy);
    if mode < 6 {
      var r := 3 * (add - 1) + (cpy - 4);
      assert c - 163 == 12 * mode + r && 0 <= r < 12;
      assert (c - 163) / 12 == mode && (c - 163) % 12 == r;
    } else {
      assert c - 235 == 4 * (mode - 6) + (add - 1);
      assert (c - 235) / 4 == mode - 6 && (c - 235) % 4 == add - 1;
    }
  }

  lemma EntryCopy(mode: nat, size: nat)
    requires mode < CPY_MODES && 4 <= size <= 18
    ensures Entry(19 + 16 * mode) == DInst(CPY + mode, 0, NOOP, 0)
    ensures Entry(16 + 16 * mode + size) == DInst(CPY + mode, size, NOOP, 0)
  {
    var c := 16 + 16 * mode + size;
    assert (c - 19) / 16 == mode && (c - 19) % 16 == size - 3;
  }

  /** `xd3_build_code_table` with the default description. */
  method BuildCodeTable() returns (tbl: array<DInst>)
    ensures fresh(tbl) && tbl.Length == 256 && forall c: byte :: tbl[c] == Entry(c)
  {
    tbl := new DInst[256](i => DInst(NOOP, 0, NOOP, 0));
    tbl[0] := tbl[0].(type1 := RUN);
    tbl[1] := tbl[1].(type1 := ADD);
    var d := 2;
    for size1 := 1 to ADD_SIZES + 1
      invariant d == 1 + size1 && BuiltTo(tbl, d)
    {
      tbl[d] := tbl[d].(type1 := ADD, size1 := size1);
      d := d + 1;
    }
    d := BuildCopies(tbl, d);
    d := BuildAddCopies(tbl, d);
    d := BuildCopyAdds(tbl, d);
    assert forall c: byte :: tbl[c] == Entry(c);
  }

  /** Its copy loop. */
  method BuildCopies(tbl: array<DInst>, from: nat) returns (d: nat)
    requires from == 19 && BuiltTo(tbl, from)
    modifies tbl
    ensures d == 163 && BuiltTo(tbl, d)
  {
    hide Entry;
    d := from;
    for mode := 0 to CPY_MODES
      invariant d == 19 + 16 * mode && BuiltTo(tbl, d)
    {
      EntryCopy(mode, 4);
      tbl[d] := tbl[d].(type1 := CPY + mode);
      d := d + 1;
      for size1 := MIN_MATCH to MIN_MATCH + CPY_SIZES
        invariant d == 16 + 16 * mode + size1 && BuiltTo(tbl, d)
      {
        EntryCopy(mode, size1);
        tbl[d] := tbl[d].(type1 := CPY + mode, size1 := size1);
        d := d + 1;
      }
    }
  }

  /** Its ADD-COPY loop. */
  method BuildAddCopies(tbl: array<DInst>, from: nat) returns (d: nat)
    requires from == 163 && BuiltTo(tbl, from)
    modifies tbl
    ensures d == 247 && BuiltTo(tbl, d)
  {
    d := from;
    for mode := 0 to CPY_MODES
      invariant d == AddCopyBase(mode) && BuiltTo(tbl, d)
    {
      var max := AddCopyMax(mode);
      for size1 := 1 to ADDCOPY_ADD_MAX + 1
        invariant d == AddCopyCode(mode, size1, 4) && BuiltTo(tbl, d)
      {
        for size2 := MIN_MATCH to max + 1
          invariant d == AddCopyCode(mode, size1, size2) && BuiltTo(tbl, d)
        {
          EntryAddCopy(mode, size1, size2);
          tbl[d] := tbl[d].(type1 := ADD, size1 := size1, type2 := CPY + mode, size2 := size2);
          d := d + 1;
        }
      }
    }
  }

  /** Its COPY-ADD loop. */
  method BuildCopyAdds(tbl: array<DInst>, from: nat) returns (d: nat)
    requires from == 247 && BuiltTo(tbl, from)
    modifies tbl
    ensures d == 256 && BuiltTo(tbl, d)
  {
    d := from;
    for mode := 0 to CPY_MODES
      invariant d == 247 + mode && BuiltTo(tbl, d)
    {
      tbl[d] := tbl[d].(type1 := CPY + mode, size1 := 4, type2 := ADD, size2 := 1);
      d := d + 1;
    }
  }

  ghost predicate BuiltTo(tbl: array<DInst>, d: nat)
    reads tbl
  {
    && tbl.Length == 256 && d <= 256
    && (forall c | 0 <= c < d :: tbl[c] == Entry(c))
    && (forall c | d <= c < 256 :: tbl[c] == DInst(NOOP, 0, NOOP, 0))
  }

  /** The single code `xd3_choose_instruction` gives an instruction. */
  function Code1(kind: nat, size: nat): (c: byte)
    requires ADD <= kind < CPY + CPY_MODES
    ensures Entry(c).type1 == kind && Entry(c).type2 == NOOP
    ensures Entry(c).size1 == 0 || Entry(c).size1 == size
  {
    if kind == RUN then 0
    else if kind == ADD then if size <= 17 then 1 + size else 1
    else
      var base := 19 + 16 * (kind - CPY);
      if 4 <= size <= 18 then base + size - 3 else base
  }

  /** The double code it gives the pair of an instruction and its successor; 0
      stands for none. */
  function Code2(prevKind: nat, prevSize: nat, kind: nat, size: nat): (c: byte)
    requires ADD <= kind < CPY + CPY_MODES && prevKind < CPY + CPY_MODES && prevSize > 0
    ensures c != 0 ==> Entry(c) == DInst(prevKind, prevSize, kind, size) && size > 0
  {
    if kind == RUN then 0
    else if kind == ADD then
      if size == 1 && prevSize == 4 && prevKind >= CPY then 247 + (prevKind - CPY) else 0
    else if 4 <= size <= 18 && prevKind == ADD && prevSize <= 4 then
      var mode := kind - CPY;
      assert size <= AddCopyMax(mode) ==>
               Entry(AddCopyCode(mode, prevSize, size)) == DInst(prevKind, prevSize, kind, size) by {
        if size <= AddCopyMax(mode) { EntryAddCopy(mode, prevSize, size); }
      }
      if size <= 6 && mode <= 5 then 163 + mode * 12 + 3 * (prevSize - 1) + (size - 4)
      else if size == 4 && mode >= 6 then 235 + (mode - 6) * 4 + (prevSize - 1)
      else 0
    else 0
  }

  /** A single code with the size in it is used whenever the table has one. */
  lemma Code1Complete(c: byte)
    requires Entry(c).type2 == NOOP
    ensures var e := Entry(c); Code1(e.type1, e.size1) == c
  {
  }

  /** A double code is used whenever the table has one for the pair. */
  lemma Code2Complete(c: byte)
    requires Entry(c).type2 != NOOP
    ensures var e := Entry(c); Code2(e.type1, e.size1, e.type2, e.size2) == c
  {
  }

  /** No two codes mean the same. */
  lemma EntryInjective(c: byte, d: byte)
    requires Entry(c) == Entry(d)
    ensures c == d
  {
  }
}
