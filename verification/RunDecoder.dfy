/** Decoding move-to-front codes with runs, and the zeros that later groups
    leave out. */
module RunDecoder {
  import opened Options
  import opened BitIO
  import opened Canonical
  import opened MoveToFront

  /** The state of the loop of `djw_decode_1_2`: values so far, repetitions to
      go, place of a symbol read but not yet output, digits of the run read so
      far, and the list. */
  datatype State = State(vals: seq<nat>, rep: nat, mtf: nat, s: nat, list: seq<nat>)

  ghost predicate Usable(clen: seq<nat>, elts: nat, d: State) {
    |d.vals| <= elts && 0 < |d.list| && |clen| <= |d.list| + 1 && d.mtf < |d.list|
  }

  /** A later group has no value where the group before it has zero. */
  predicate Skipped(vals: seq<nat>, n: nat, skip: nat)
    requires n <= |vals|
  {
    skip != 0 && n >= skip && vals[n - skip] == 0
  }

  datatype Result = Bad | Values(vals: seq<nat>, rest: seq<bool>)

  /** `djw_decode_1_2` on the bits to come. */
  function Read12(clen: seq<nat>, max: nat, elts: nat, skip: nat, b: seq<bool>, d: State): Result
    requires Usable(clen, elts, d)
    decreases elts - |d.vals|, if d.rep == 0 && d.mtf == 0 then 1 else 0
  {
    var n := |d.vals|;
    if n == elts then (if d.rep != 0 then Bad else Values(d.vals, b))
    else if Skipped(d.vals, n, skip) then
      Read12(clen, max, elts, skip, b, d.(vals := d.vals + [0]))
    else if d.rep != 0 then
      Read12(clen, max, elts, skip, b, d.(vals := d.vals + [d.list[0]], rep := d.rep - 1))
    else if d.mtf != 0 then
      Read12(clen, max, elts, skip, b, d.(vals := d.vals + [d.list[d.mtf]], mtf := 0, list := Front(d.list, d.mtf)))
    else
      var c := Decode(clen, max, b);
      if c == Invalid then Bad
      else Read12(clen, max, elts, skip, c.rest, AfterCode(d, c.sym))
  }

  /** A code is a digit of a run, or the place of a symbol. */
  function AfterCode(d: State, c: nat): State {
    if c <= RUN_1 then d.(rep := (c + 1) * Pow2(d.s), s := d.s + 1) else d.(mtf := c - RUN_1, s := 0)
  }

  /** `djw_decode_1_2`. */
  method Decode12(r: BitReader, t: Tables, ghost clen: seq<nat>, maxSym: nat, mtfvals: array<nat>, elts: nat, skip: nat)
      returns (values: Option<seq<nat>>)
    requires r.Valid() && TablesOk(clen, t) && |t.inorder| <= maxSym && t.maxLen == MaxLen(clen)
    requires 0 < mtfvals.Length && |clen| <= mtfvals.Length + 1 && r.used > 0
    modifies r, mtfvals
    ensures r.Valid()
    ensures var d := Read12(clen, t.maxLen, elts, skip, old(r.Rest()), State([], 0, 0, 0, old(mtfvals[..])));
      if d.Values? then values == Some(d.vals) && r.Rest() == d.rest && r.used > 0 else values == None
  {
    hide Read12, TablesOk, MaxLen, Decode, Front;
    ghost var d := Read12(clen, t.maxLen, elts, skip, r.Rest(), State([], 0, 0, 0, mtfvals[..]));
    var vals: seq<nat> := [];
    var rep: nat, mtf: nat, s: nat := 0, 0, 0;
    while |vals| < elts
      invariant r.Valid() && r.used > 0 && |vals| <= elts && mtf < mtfvals.Length
      invariant d == Read12(clen, t.maxLen, elts, skip, r.Rest(), State(vals, rep, mtf, s, mtfvals[..]))
      decreases elts - |vals|, if rep == 0 && mtf == 0 then 1 else 0
    {
      var n := |vals|;
      Read12Step(clen, t.maxLen, elts, skip, r.Rest(), State(vals, rep, mtf, s, mtfvals[..]));
      if skip != 0 && n >= skip && vals[n - skip] == 0 {
        vals := vals + [0];
      } else if rep != 0 {
        vals := vals + [mtfvals[0]];
        rep := rep - 1;
      } else if mtf != 0 {
        var sym := UpdateMtf(mtfvals, mtf);
        vals := vals + [sym];
        mtf := 0;
      } else {
        var c := DecodeSymbol(r, t, clen, maxSym);
        if c == None {
          return None;
        }
        if c.value <= RUN_1 {
          rep := (c.value + 1) * Pow2(s);
          s := s + 1;
        } else {
          mtf := c.value - RUN_1;
          s := 0;
        }
      }
    }
    Read12Step(clen, t.maxLen, elts, skip, r.Rest(), State(vals, rep, mtf, s, mtfvals[..]));
    if rep != 0 {
      return None;
    }
    values := Some(vals);
  }

  /** One round. */
  lemma Read12Step(clen: seq<nat>, max: nat, elts: nat, skip: nat, b: seq<bool>, d: State)
    requires Usable(clen, elts, d)
    ensures Read12(clen, max, elts, skip, b, d) == (
      var n := |d.vals|;
      if n == elts then (if d.rep != 0 then Bad else Values(d.vals, b))
      else if Skipped(d.vals, n, skip) then
        Read12(clen, max, elts, skip, b, d.(vals := d.vals + [0]))
      else if d.rep != 0 then
        Read12(clen, max, elts, skip, b, d.(vals := d.vals + [d.list[0]], rep := d.rep - 1))
      else if d.mtf != 0 then
        Read12(clen, max, elts, skip, b, d.(vals := d.vals + [d.list[d.mtf]], mtf := 0, list := Front(d.list, d.mtf)))
      else
        var c := Decode(clen, max, b);
        if c == Invalid then Bad
        else Read12(clen, max, elts, skip, c.rest, AfterCode(d, c.sym)))
  {
    hide Decode, Front, AfterCode;
  }
}
