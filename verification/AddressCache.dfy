/** The NEAR/SAME address cache (section 5.1 of RFC 3284). */
module AddressCache {
  import opened Bytes
  import opened Varint

  const VCD_SELF := 0
  const VCD_HERE := 1

  /** `s_near` is `|near|`; `|same|` is `256 * s_same`; `next` is `next_slot`. */
  datatype Cache = Cache(near: seq<nat>, same: seq<nat>, next: nat) {
    ghost predicate Valid() {
      && (near != [] ==> next < |near|)
      && |same| % 256 == 0
      && (forall i | 0 <= i < |near| :: near[i] < USIZE_LIMIT)
      && (forall k | 0 <= k < |same| :: same[k] < USIZE_LIMIT)
    }

    /** A nonzero entry can only sit in the slot its own value selects. */
    ghost predicate Hashed() {
      forall k | 0 <= k < |same| :: same[k] != 0 ==> same[k] % |same| == k
    }

    /** Number of address modes: SELF, HERE, then NEAR, then SAME. */
    function Modes(): nat {
      2 + |near| + |same| / 256
    }
  }

  function Empty(sNear: nat, sSame: nat): (c: Cache)
    ensures c.Valid() && c.Hashed() && c.Modes() == 2 + sNear + sSame
  {
    Cache(seq(sNear, i => 0), seq(sSame * 256, i => 0), 0)
  }

  /** The specification of `xd3_update_cache`. */
  function Update(c: Cache, addr: nat): (c': Cache)
    requires c.Valid() && addr < USIZE_LIMIT
    ensures c'.Valid() && c'.Modes() == c.Modes() && (c.Hashed() ==> c'.Hashed())
  {
    Cache(if c.near == [] then [] else c.near[c.next := addr],
          if c.same == [] then [] else c.same[addr % |c.same| := addr],
          if c.near == [] then c.next else (c.next + 1) % |c.near|)
  }

  datatype Address = Ok(addr: nat, rest: seq<byte>) | Bad

  /** The specification of `xd3_decode_address`, with 32-bit wrap-around. */
  function DecodeAddr(c: Cache, here: nat, mode: nat, s: seq<byte>): (r: Address)
    requires c.Valid() && mode < c.Modes() && here < USIZE_LIMIT
    ensures r.Ok? ==> r.addr < USIZE_LIMIT
  {
    if mode < 2 + |c.near| then
      match ReadFrom(0, s, OFLOW32)
      case Ok(v, rest) =>
        OverflowBound(0, s, OFLOW32);
        OverflowIff(0, s, OFLOW32);
        Address.Ok(if mode == VCD_SELF then v
                   else if mode == VCD_HERE then Wrap(here - v)
                   else Wrap(v + c.near[mode - 2]), rest)
      case _ => Bad
    else if s == [] then Bad
    else Address.Ok(c.same[(mode - 2 - |c.near|) * 256 + s[0]], s[1..])
  }

  /** `out` is one way to write `addr` in mode `mode`. */
  ghost predicate Encodes(c: Cache, here: nat, addr: nat, mode: nat, out: seq<byte>) {
    && c.Valid() && mode < c.Modes() && here < USIZE_LIMIT
    && DecodeAddr(c, here, mode, out) == Address.Ok(addr, [])
  }

  /** No way to write `addr` takes fewer bytes than `out`. */
  ghost predicate Shortest(c: Cache, here: nat, addr: nat, out: seq<byte>) {
    forall m, o :: Encodes(c, here, addr, m, o) ==> |out| <= |o|
  }

  /** The modes (section 5.3 of RFC 3284): 0 is the address itself, 1 the distance back
      from here, then one mode for each NEAR address, to which an offset is added, and
      one for each 256 SAME addresses, chosen by one byte. */
  lemma ModesMean(c: Cache, here: nat, mode: nat, v: nat, tail: seq<byte>)
    requires c.Valid() && mode < c.Modes() && here < USIZE_LIMIT && v < USIZE_LIMIT
    ensures var n := |c.near|;
      if mode == 0 then DecodeAddr(c, here, mode, Emit(v) + tail) == Address.Ok(v, tail)
      else if mode == 1 then
        v <= here ==> DecodeAddr(c, here, mode, Emit(v) + tail) == Address.Ok(here - v, tail)
      else if mode < 2 + n then
        c.near[mode - 2] + v < USIZE_LIMIT ==>
          DecodeAddr(c, here, mode, Emit(v) + tail) == Address.Ok(c.near[mode - 2] + v, tail)
      else
        v < 256 ==> DecodeAddr(c, here, mode, [v] + tail) == Address.Ok(c.same[(mode - (2 + n)) * 256 + v], tail)
  {
    RoundTrip(v, tail, OFLOW32);
    assert ([v % 256] + tail)[1..] == tail;
  }

  /** An address is decoded the same whatever follows it. */
  lemma DecodeExtends(c: Cache, here: nat, mode: nat, s: seq<byte>, tail: seq<byte>)
    requires c.Valid() && mode < c.Modes() && here < USIZE_LIMIT && DecodeAddr(c, here, mode, s).Ok?
    ensures var r := DecodeAddr(c, here, mode, s);
      DecodeAddr(c, here, mode, s + tail) == Address.Ok(r.addr, r.rest + tail)
  {
    ReadResumes(0, s, tail, OFLOW32);
    if mode >= 2 + |c.near| {
      assert (s + tail)[1..] == s[1..] + tail;
    }
  }

  /** The integer that a SELF, HERE or NEAR mode must carry for `addr`. */
  ghost function Carried(c: Cache, here: nat, addr: nat, mode: nat): nat
    requires c.Valid() && mode < 2 + |c.near| && addr < here < USIZE_LIMIT
  {
    if mode == VCD_SELF then addr
    else if mode == VCD_HERE then here - addr
    else Wrap(addr - c.near[mode - 2])
  }

  lemma EncodesCarried(c: Cache, here: nat, addr: nat, mode: nat)
    requires c.Valid() && mode < 2 + |c.near| && addr < here < USIZE_LIMIT
    requires mode >= 2 ==> c.near[mode - 2] <= addr
    ensures Encodes(c, here, addr, mode, Emit(Carried(c, here, addr, mode)))
  {
    var d := Carried(c, here, addr, mode);
    RoundTrip(d, [], OFLOW32);
    assert Emit(d) + [] == Emit(d);
  }

  /** Any encoding in such a mode carries that integer, so has its size. */
  lemma CarriedForced(c: Cache, here: nat, addr: nat, mode: nat, out: seq<byte>)
    requires Encodes(c, here, addr, mode, out) && mode < 2 + |c.near| && addr < here
    ensures SizeOf(Carried(c, here, addr, mode)) <= |out|
  {
    var v := ReadFrom(0, out, OFLOW32).value;
    OverflowBound(0, out, OFLOW32);
    OverflowIff(0, out, OFLOW32);
    assert v == Carried(c, here, addr, mode);
    EmitShortest(0, out, OFLOW32);
  }

  /** A near entry above the address never gives a smaller integer than SELF. */
  lemma CarriedAbove(c: Cache, here: nat, addr: nat, mode: nat)
    requires c.Valid() && 2 <= mode < 2 + |c.near| && addr < here < USIZE_LIMIT
    ensures c.near[mode - 2] <= addr ==> Carried(c, here, addr, mode) == addr - c.near[mode - 2]
    ensures c.near[mode - 2] > addr ==> Carried(c, here, addr, mode) >= addr
  {
  }

  /** A SAME encoding can only use the slot that the encoder looks at. */
  lemma SameForced(c: Cache, here: nat, addr: nat, mode: nat, out: seq<byte>)
    requires Encodes(c, here, addr, mode, out) && c.Hashed() && mode >= 2 + |c.near| && addr > 0
    ensures c.same[addr % |c.same|] == addr
  {
    assert c.same[(mode - 2 - |c.near|) * 256 + out[0]] == addr;
  }

  /** `best` is the least integer found by trying the modes below `tried`. */
  ghost predicate Least(c: Cache, here: nat, addr: nat, best: nat, tried: nat)
    requires c.Valid() && tried <= 2 + |c.near| && addr < here < USIZE_LIMIT
  {
    forall m: nat | m < tried :: best <= Carried(c, here, addr, m)
  }

  lemma SizeOfMonotone(a: nat, b: nat)
    requires a <= b
    ensures SizeOf(a) <= SizeOf(b)
  {
  }

  /** No mode writes `addr` in fewer bytes than the winner of the search. */
  lemma LeastIsShortest(c: Cache, here: nat, addr: nat, best: nat, mode: nat, out: seq<byte>)
    requires c.Valid() && c.Hashed() && addr < here < USIZE_LIMIT
    requires best < 128 || (Least(c, here, addr, best, 2 + |c.near|)
                            && (c.same == [] || c.same[addr % |c.same|] != addr))
    requires Encodes(c, here, addr, mode, out)
    ensures SizeOf(best) <= |out|
  {
    if mode < 2 + |c.near| {
      CarriedForced(c, here, addr, mode, out);
      if best >= 128 {
        SizeOfMonotone(best, Carried(c, here, addr, mode));
      }
    } else if best >= 128 {
      assert best <= Carried(c, here, addr, VCD_SELF);
      SameForced(c, here, addr, mode, out);
    }
  }

  /** A run of addresses and the codes written for them, each by some mode of
      the cache as it stands at that point. */
  datatype Item = Item(addr: nat, here: nat, mode: nat, out: seq<byte>)

  ghost predicate InRange(c: Cache, items: seq<Item>) {
    forall i | 0 <= i < |items| ::
      items[i].addr < USIZE_LIMIT && items[i].mode < c.Modes() && items[i].here < USIZE_LIMIT
  }

  ghost function UpdateAll(c: Cache, items: seq<Item>): (c': Cache)
    requires c.Valid() && InRange(c, items)
    ensures c'.Valid() && c'.Modes() == c.Modes()
    decreases |items|
  {
    if items == [] then c else UpdateAll(Update(c, items[0].addr), items[1..])
  }

  ghost predicate AllEncode(c: Cache, items: seq<Item>)
    requires c.Valid()
    decreases |items|
  {
    && InRange(c, items)
    && (items == [] || (
      && Encodes(c, items[0].here, items[0].addr, items[0].mode, items[0].out)
      && AllEncode(Update(c, items[0].addr), items[1..])))
  }

  function Concat(items: seq<Item>): seq<byte>
    decreases |items|
  {
    if items == [] then [] else items[0].out + Concat(items[1..])
  }

  /** The decoder's own fold over a section, given `here` and mode of each
      address; it returns the addresses, its cache and what is left over. */
  ghost function DecodeAll(c: Cache, items: seq<Item>, s: seq<byte>): (seq<Address>, Cache, seq<byte>)
    requires c.Valid() && InRange(c, items)
    decreases |items|
  {
    if items == [] then ([], c, s)
    else
      var r := DecodeAddr(c, items[0].here, items[0].mode, s);
      if r.Bad? then ([r], c, s)
      else
        var (more, c', s') := DecodeAll(Update(c, r.addr), items[1..], r.rest);
        ([r] + more, c', s')
  }

  /** Lockstep: over a whole run the decoder finds every address and ends with
      the encoder's cache, nothing left over. */
  lemma {:induction false} Lockstep(c: Cache, items: seq<Item>, tail: seq<byte>)
    requires c.Valid() && AllEncode(c, items)
    ensures var (found, c', rest) := DecodeAll(c, items, Concat(items) + tail);
      && |found| == |items| && (forall i | 0 <= i < |items| :: found[i].Ok? && found[i].addr == items[i].addr)
      && c' == UpdateAll(c, items) && rest == tail
    decreases |items|
  {
    hide Update, DecodeAddr, ReadFrom, Cache.Hashed, Cache.Modes, Cache.Valid, Wrap;
    if items == [] {
      assert Concat(items) + tail == tail;
    } else {
      var x := items[0];
      var more := Concat(items[1..]) + tail;
      assert Concat(items) + tail == x.out + more;
      DecodeExtends(c, x.here, x.mode, x.out, more);
      assert [] + more == more;
      Lockstep(Update(c, x.addr), items[1..], tail);
      var (found, _, _) := DecodeAll(c, items, Concat(items) + tail);
      var (found', _, _) := DecodeAll(Update(c, x.addr), items[1..], more);
      forall i | 0 <= i < |items| ensures found[i].Ok? && found[i].addr == items[i].addr {
        assert i > 0 ==> items[i] == items[1..][i - 1] && found[i] == found'[i - 1];
      }
    }
  }

  // What the cache remembers.

  /** The last address of those with number `j` modulo `n`; zero if there is none. */
  function LastInTurn(addrs: seq<nat>, n: nat, j: nat): nat
    requires 0 < n
  {
    if addrs == [] then 0
    else if (|addrs| - 1) % n == j then addrs[|addrs| - 1]
    else LastInTurn(addrs[..|addrs| - 1], n, j)
  }

  /** The last address that is `k` modulo `n`; zero if there is none. */
  function LastHashed(addrs: seq<nat>, n: nat, k: nat): nat
    requires 0 < n
  {
    if addrs == [] then 0
    else if addrs[|addrs| - 1] % n == k then addrs[|addrs| - 1]
    else LastHashed(addrs[..|addrs| - 1], n, k)
  }

  /** The cache after a list of addresses (section 5.1 of RFC 3284): NEAR takes them
      in turn, SAME by their low bits. */
  ghost predicate Remembers(c: Cache, addrs: seq<nat>) {
    && (forall j | 0 <= j < |c.near| :: c.near[j] == LastInTurn(addrs, |c.near|, j))
    && (forall k | 0 <= k < |c.same| :: c.same[k] == LastHashed(addrs, |c.same|, k))
    && c.next == if c.near == [] then 0 else |addrs| % |c.near|
  }

  lemma ModNext(a: nat, n: nat)
    requires 0 < n
    ensures (a % n + 1) % n == (a + 1) % n
  {
    var q, r := a / n, a % n;
    assert a == q * n + r;
    if r + 1 < n {
      ModIs(a + 1, n, q, r + 1);
      ModIs(r + 1, n, 0, r + 1);
    } else {
      assert (q + 1) * n == q * n + n;
      ModIs(a + 1, n, q + 1, 0);
      ModIs(n, n, 1, 0);
    }
  }

  lemma ModIs(x: nat, n: nat, q: nat, r: nat)
    requires r < n && x == q * n + r
    ensures x % n == r
  {
    Quotient(x, n, q);
    assert x == (x / n) * n + x % n;
  }

  lemma RememberOne(c: Cache, addrs: seq<nat>, a: nat)
    requires c.Valid() && Remembers(c, addrs) && a < USIZE_LIMIT
    ensures Remembers(Update(c, a), addrs + [a]) && |Update(c, a).near| == |c.near| && |Update(c, a).same| == |c.same|
  {
    var t := addrs + [a];
    assert t[..|t| - 1] == addrs;
    if c.near != [] { ModNext(|addrs|, |c.near|); }
  }

  lemma UpdateFirst(c: Cache, items: seq<Item>)
    requires c.Valid() && InRange(c, items) && items != []
    ensures items[0].addr < USIZE_LIMIT
    ensures var c' := Update(c, items[0].addr); InRange(c', items[1..]) && UpdateAll(c, items) == UpdateAll(c', items[1..])
  {
    hide Update;
  }

  lemma {:induction false} RememberMore(c: Cache, addrs: seq<nat>, items: seq<Item>)
    requires c.Valid() && Remembers(c, addrs) && InRange(c, items)
    ensures var c' := UpdateAll(c, items);
      Remembers(c', addrs + Addresses(items)) && |c'.near| == |c.near| && |c'.same| == |c.same|
    decreases |items|
  {
    hide Remembers, Update, UpdateAll, InRange, Cache.Valid, Cache.Hashed, Cache.Modes;
    if items == [] {
      assert addrs + Addresses(items) == addrs;
      assert UpdateAll(c, items) == c by { NoUpdate(c); }
    } else {
      var a := items[0].addr;
      UpdateFirst(c, items);
      RememberOne(c, addrs, a);
      RememberMore(Update(c, a), addrs + [a], items[1..]);
      assert addrs + Addresses(items) == addrs + [a] + Addresses(items[1..]);
    }
  }

  lemma NoUpdate(c: Cache)
    requires c.Valid()
    ensures InRange(c, []) && UpdateAll(c, []) == c
  {
  }

  function Addresses(items: seq<Item>): seq<nat> {
    if items == [] then [] else [items[0].addr] + Addresses(items[1..])
  }

  /** From the start of a window on, whatever modes were used: the cache is the function
      of the addresses so far that the format says. */
  lemma History(sNear: nat, sSame: nat, items: seq<Item>)
    requires InRange(Empty(sNear, sSame), items)
    ensures var c := UpdateAll(Empty(sNear, sSame), items);
      |c.near| == sNear && |c.same| == 256 * sSame && Remembers(c, Addresses(items))
  {
    hide UpdateAll, Remembers;
    StartRemembers(sNear, sSame);
    RememberMore(Empty(sNear, sSame), [], items);
    assert [] + Addresses(items) == Addresses(items);
  }

  lemma StartRemembers(sNear: nat, sSame: nat)
    ensures Remembers(Empty(sNear, sSame), [])
  {
  }

  /** `xd3_addr_cache`. */
  class AddrCache {
    const sNear: nat
    const sSame: nat
    const nearArray: array<nat>
    const sameArray: array<nat>
    var nextSlot: nat

    ghost predicate Valid()
      reads this, nearArray, sameArray
    {
      nearArray.Length == sNear && sameArray.Length == sSame * 256 && nearArray != sameArray && View().Valid()
    }

    ghost function View(): Cache
      reads this, nearArray, sameArray
    {
      Cache(nearArray[..], sameArray[..], nextSlot)
    }

    /** `xd3_alloc_cache` and `xd3_init_cache` on fresh arrays. */
    constructor (near: nat, same: nat)
      ensures Valid() && sNear == near && sSame == same
      ensures fresh(nearArray) && fresh(sameArray) && View() == Empty(near, same)
    {
      sNear, sSame, nextSlot := near, same, 0;
      nearArray := new nat[near](i => 0);
      sameArray := new nat[same * 256](i => 0);
      new;
      assert nearArray[..] == seq(near, i => 0);
      assert sameArray[..] == seq(same * 256, i => 0);
    }

    /** `xd3_init_cache`: forget everything at the start of a window. */
    method Init()
      requires Valid()
      modifies this, nearArray, sameArray
      ensures Valid() && View() == Empty(sNear, sSame).(next := if sNear > 0 then 0 else old(nextSlot))
    {
      if sNear > 0 {
        forall i | 0 <= i < nearArray.Length { nearArray[i] := 0; }
        nextSlot := 0;
      }
      if sSame > 0 {
        forall i | 0 <= i < sameArray.Length { sameArray[i] := 0; }
      }
      assert nearArray[..] == seq(sNear, i => 0);
      assert sameArray[..] == seq(sSame * 256, i => 0);
    }

    method UpdateCache(addr: nat)
      requires Valid() && addr < USIZE_LIMIT
      modifies this, nearArray, sameArray
      ensures Valid() && View() == Update(old(View()), addr)
    {
      if sNear > 0 {
        nearArray[nextSlot] := addr;
        nextSlot := (nextSlot + 1) % sNear;
      }
      if sSame > 0 {
        sameArray[addr % (sSame * 256)] := addr;
      }
    }

    /** The search over SELF, HERE and NEAR, left early as soon as the integer
        fits one byte (SMALLEST_INT). */
    method BestMode(addr: nat, here: nat) returns (bestd: nat, bestm: nat)
      requires Valid() && addr < here < USIZE_LIMIT
      ensures bestm < 2 + sNear && bestd == Carried(View(), here, addr, bestm)
      ensures bestm >= 2 ==> View().near[bestm - 2] <= addr
      ensures bestd < 128 || Least(View(), here, addr, bestd, 2 + sNear)
    {
      ghost var c := View();
      bestd, bestm := addr, VCD_SELF;
      if bestd < 128 { return; }
      if here - addr < bestd {
        bestd, bestm := here - addr, VCD_HERE;
        if bestd < 128 { return; }
      }
      var i := 0;
      while i < sNear
        invariant 0 <= i <= sNear && bestm < 2 + sNear && Least(c, here, addr, bestd, i + 2)
        invariant bestd == Carried(c, here, addr, bestm) && (bestm >= 2 ==> c.near[bestm - 2] <= addr)
      {
        CarriedAbove(c, here, addr, i + 2);
        if addr >= nearArray[i] {
          var d := addr - nearArray[i];
          if d < bestd {
            bestd, bestm := d, i + 2;
            if bestd < 128 { return; }
          }
        }
        i := i + 1;
      }
    }

    /** Pick a mode, write the address, update the cache. The bytes written
        decode to `addr`, and no mode could have written it in fewer. */
    method EncodeAddress(addr: nat, here: nat) returns (mode: nat, out: seq<byte>)
      requires Valid() && View().Hashed() && addr < here < USIZE_LIMIT
      modifies this, nearArray, sameArray
      ensures Valid() && View() == Update(old(View()), addr)
      ensures Encodes(old(View()), here, addr, mode, out)
      ensures Shortest(old(View()), here, addr, out)
      ensures |out| <= 5
    {
      ghost var c := View();
      var bestd, bestm := BestMode(addr, here);
      var d := if sSame > 0 then addr % (sSame * 256) else 0;
      if bestd >= 128 && sSame > 0 && sameArray[d] == addr {
        mode, out := sNear + 2 + d / 256, [d % 256];
        assert (mode - 2 - |c.near|) * 256 + out[0] == d;
      } else {
        mode := bestm;
        out := EmitInteger(bestd);
        EncodesCarried(c, here, addr, bestm);
        EmitSize(bestd);
        forall m, o | Encodes(c, here, addr, m, o) ensures |out| <= |o| {
          LeastIsShortest(c, here, addr, bestd, m, o);
        }
      }
      UpdateCache(addr);
    }

    /** Read one address at cursor `pos` of `s`. */
    method DecodeAddress(here: nat, mode: nat, s: seq<byte>, pos: nat) returns (ok: bool, addr: nat, next: nat)
      requires Valid() && mode < View().Modes() && here < USIZE_LIMIT && pos <= |s|
      modifies this, nearArray, sameArray
      ensures Valid()
      ensures var r := DecodeAddr(old(View()), here, mode, s[pos..]);
        && (ok <==> r.Ok?)
        && (ok ==> next <= |s| && r == Address.Ok(addr, s[next..]) && View() == Update(old(View()), addr))
        && (!ok ==> View() == old(View()))
    {
      var sameStart := 2 + sNear;
      if mode < sameStart {
        ok, addr, next := ReadInteger(s, pos, OFLOW32);
        if !ok { return; }
        OverflowBound(0, s[pos..], OFLOW32);
        OverflowIff(0, s[pos..], OFLOW32);
        if mode == VCD_HERE {
          addr := Wrap(here - addr);
        } else if mode != VCD_SELF {
          addr := Wrap(addr + nearArray[mode - 2]);
        }
      } else {
        if pos == |s| { return false, 0, pos; }
        addr := sameArray[(mode - sameStart) * 256 + s[pos]];
        ok, next := true, pos + 1;
      }
      UpdateCache(addr);
    }
  }
}
