/** The source file as encoder and decoder see it: blocks, where a position lies,
    and the clients that supply a block. */
module SourceFiles {
  import opened Bytes
  import SourceBlocks

  /** Block `n` of a file; blocks past the end are empty. */
  function Block(S: seq<byte>, b: nat, n: nat): seq<byte> {
    Stretch(S, n * b, b)
  }

  /** As many of the `b` bytes from `lo` on as there are. */
  function Stretch(S: seq<byte>, lo: nat, b: nat): seq<byte> {
    S[Min(lo, |S|)..Min(lo + b, |S|)]
  }

  /** `xd3_blksize_div`. */
  function BlksizeDiv(offset: nat, b: nat): (r: (nat, nat))
    requires 0 < b
    ensures r.1 < b && r.0 * b + r.1 == offset
  {
    (offset / b, offset % b)
  }

  /** `xd3_blksize_add`: the block and offset of a position `add` bytes on, the
      offset added in 32 bits. */
  function BlksizeAdd(blkno: nat, blkoff: nat, b: nat, add: nat): (r: (nat, nat))
    requires blkoff < b && blkoff + add < 2 * USIZE_LIMIT
    ensures r.1 < b && r.0 * b + r.1 == blkno * b + if blkoff + add < USIZE_LIMIT then blkoff + add else blkoff + add - USIZE_LIMIT
  {
    var off := Wrap(blkoff + add);
    var blkdiff := off / b;
    assert (blkno + blkdiff) * b == blkno * b + blkdiff * b;
    if blkdiff != 0 then (blkno + blkdiff, off % b) else (blkno, off)
  }

  /** Where the decoder looks for the byte at `addr` of a copy window that starts
      at `cpyoff`. */
  function Place(b: nat, cpyoff: nat, addr: nat): (r: (nat, nat))
    requires 0 < b <= USIZE_LIMIT && addr < USIZE_LIMIT
    ensures r.1 < b
  {
    var (q, o) := BlksizeDiv(cpyoff, b);
    BlksizeAdd(q, o, b, addr)
  }

  predicate PlacedRight(b: nat, cpyoff: nat, addr: nat)
    requires 0 < b <= USIZE_LIMIT && addr < USIZE_LIMIT
  {
    var (block, blkoff) := Place(b, cpyoff, addr);
    block * b + blkoff == cpyoff + addr
  }

  /** The decoder finds every byte of a copy window exactly when the offset of its
      last byte, counted from the start of the block where the window starts, fits
      32 bits. */
  lemma PlacedIff(b: nat, cpyoff: nat, cpylen: nat)
    requires 0 < b <= USIZE_LIMIT && cpylen < USIZE_LIMIT
    ensures (forall addr: nat | addr < cpylen :: PlacedRight(b, cpyoff, addr)) <==> cpyoff % b + cpylen <= USIZE_LIMIT
  {
    if cpyoff % b + cpylen > USIZE_LIMIT {
      assert !PlacedRight(b, cpyoff, cpylen - 1);
    }
  }

  /** A window whose header the decoder accepts, and a byte taken from the wrong
      block: number 2 of the file instead of one four gigabytes on. */
  lemma WrongBlock()
    ensures var b, cpyoff, cpylen, addr := 8, 7, 0xFFFF_FFFE, 0xFFFF_FFFB;
      && cpylen + 1 < USIZE_LIMIT && addr < cpylen
      && Place(b, cpyoff, addr) == (0, 2) && cpyoff + addr == 0x1_0000_0002
  {
  }

  lemma BlockIs(S: seq<byte>, id: nat)
    ensures SourceBlocks.BlockBytes(S, id) == Block(S, SourceBlocks.SOURCE_BLOCK_SIZE, id)
  {
  }

  /** What a request for a block comes to. */
  datatype Answer = Now | Later | TooFarBack

  /** No `getblk` callback: the application supplies the block after
      XD3_GETSRCBLK. Any callback. The callback of this repository, which has read
      `nread` blocks and keeps the most recently used ones. */
  datatype Client = NoCallback | Callback | Cached(nread: nat, uses: seq<nat>)

  ghost predicate ClientOk(c: Client) {
    c.Cached? ==> forall b :: b in c.uses <==> 0 <= b < c.nread
  }

  function Served(c: Client, blkno: nat): Client
    requires c.Cached?
  {
    Cached(Max(c.nread, blkno + 1), SourceBlocks.UsesAfter(c.uses, c.nread, blkno))
  }

  /** `xd3_source`. */
  class SourceFile {
    const bytes: seq<byte>
    const blksize: nat
    var curblkno: nat
    var curblk: seq<byte>
    var loaded: bool
    var getblkno: nat
    var client: Client
    /** How many requests the client has refused. */
    ghost var refused: nat

    ghost predicate Valid()
      reads this
    {
      (loaded ==> curblk == Block(bytes, blksize, curblkno)) && ClientOk(client)
    }

    /** All blocks read so far are still cached. */
    ghost predicate AllCached()
      reads this
    {
      client.Cached? && client.nread <= SourceBlocks.MAX_SOURCE_BLOCKS
    }

    constructor (S: seq<byte>, b: nat, c: Client)
      requires ClientOk(c)
      ensures Valid() && bytes == S && blksize == b && client == c && !loaded && refused == 0
    {
      bytes, blksize, client := S, b, c;
      curblkno, curblk, loaded, getblkno, refused := 0, [], false, 0, 0;
    }

    /** `xd3_getblk`: the block at hand, or what the client does. */
    method GetBlk(blkno: nat) returns (answer: Answer)
      requires Valid()
      modifies this
      ensures Valid()
      ensures answer == Now ==> loaded && curblkno == blkno
      ensures old(loaded) && old(curblkno) == blkno ==> answer == Now && client == old(client)
      ensures answer == Later ==> getblkno == blkno && client == old(client) && !client.Cached?
      ensures answer == TooFarBack ==> client == old(client) && !client.NoCallback?
      ensures refused == old(refused) + if answer == TooFarBack then 1 else 0
      ensures answer == TooFarBack ==> loaded == old(loaded) && curblkno == old(curblkno) && curblk == old(curblk)
      ensures old(client).Cached? && !(old(loaded) && old(curblkno) == blkno) ==>
        if SourceBlocks.Refuses(old(client).uses, blkno) then answer == TooFarBack
        else answer == Now && client == Served(old(client), blkno)
      ensures client == old(client) || (old(client).Cached? && client == Served(old(client), blkno))
    {
      if loaded && blkno == curblkno { return Now; }
      getblkno := blkno;
      match client
      case NoCallback =>
        answer := Later;
      case Callback =>
        var any: nat := *;
        answer := if any == 0 then Now else if any == 1 then Later else TooFarBack;
        if answer == Now { Install(blkno); }
        if answer == TooFarBack { refused := refused + 1; }
      case Cached(nread, uses) =>
        if SourceBlocks.Refuses(uses, blkno) {
          refused := refused + 1;
          return TooFarBack;
        }
        Install(blkno);
        client := Served(client, blkno);
        answer := Now;
    }

    method Install(blkno: nat)
      requires Valid()
      modifies this`curblkno, this`curblk, this`loaded
      ensures Valid() && loaded && curblkno == blkno
    {
      curblkno, curblk, loaded := blkno, Block(bytes, blksize, blkno), true;
    }

    /** The application supplies the block that it was asked for. */
    method Supply()
      requires Valid()
      modifies this`curblkno, this`curblk, this`loaded
      ensures Valid() && loaded && curblkno == getblkno
    {
      Install(getblkno);
    }

    /** With the callback of this repository, no block is refused as long as at
        most as many blocks were read as the cache holds. */
    lemma NotRefused(blkno: nat)
      requires Valid() && AllCached()
      ensures !SourceBlocks.Refuses(client.uses, blkno)
    {
      SourceBlocks.FewNeverRefused(client.uses, client.nread, blkno);
    }
  }

  /** `get_source_block` behind `getblk` does what is said of the client
      `Cached`. */
  method RepositoryAnswers(c: SourceBlocks.Source, f: SourceFile, blkno: nat) returns (answer: Answer)
    requires c.Valid() && f.Valid() && f.bytes == c.file && f.blksize == SourceBlocks.SOURCE_BLOCK_SIZE
    requires f.client == Cached(c.nread, c.uses)
    modifies c`pos, c`nread, c`uses, c`curblkno, c`onblk, c`curblk, c.cache, c.cache.blocks, c.cache.slices
    modifies f`curblkno, f`curblk, f`loaded, f`client
    ensures c.Valid() && f.Valid() && f.client == Cached(c.nread, c.uses)
    ensures answer == TooFarBack <==> SourceBlocks.Refuses(old(c.uses), blkno)
    ensures answer == TooFarBack ==> f.client == old(f.client) && f.curblk == old(f.curblk) && f.curblkno == old(f.curblkno)
    ensures answer != TooFarBack ==>
      answer == Now && f.loaded && f.curblkno == blkno && f.client == Served(old(f.client), blkno)
  {
    hide SourceBlocks.Source.Valid, SourceBlocks.UsesAfter, SourceBlocks.Refuses, SourceBlocks.BlockBytes, Block;
    var served := c.GetSourceBlock(blkno);
    if served == SourceBlocks.TooFarBack {
      return TooFarBack;
    }
    BlockIs(f.bytes, blkno);
    UsesOk(f.client, blkno);
    f.curblkno, f.curblk, f.loaded := blkno, c.cache.slices[c.curblk][..c.onblk], true;
    f.client := Served(f.client, blkno);
    answer := Now;
  }

  lemma UsesOk(c: Client, blkno: nat)
    requires ClientOk(c) && c.Cached?
    ensures ClientOk(Served(c, blkno))
  {
  }
}
