# xdelta: a VCDIFF codec and its block cache

The repository wraps xdelta3, an encoder and decoder of VCDIFF deltas (RFC
3284), for Python, and feeds it source blocks through a cache of its own. This
project models the algorithms of the codec and of the cache and proves what they
are for.

One meaning of a delta underlies most of it. `Delta` says what bytes the
instructions of a delta rebuild, by running them and by an equation for every
byte, and that both are the same. On it rest

- merging two deltas into one (`Merge`, `WholeFile`);
- a window from input to bytes and back: the search loop (`StringMatch`), matching
  against source and target (`SourceMatch`, `TargetMatch`), choosing among
  overlapping matches (`Iopt`), writing the three sections (`Encoder`,
  `CodeTable`, `AddressCache`, `Varint`), and the decoder that stops for source
  blocks and is entered again (`Window`, `SourceFiles`, `WindowDecoder`,
  `WholeWindow`);
- a whole delta file: headers and sections as they are written (`DeltaFile`), some
  compressed (`Secondary`), read in chunks by the decoder's state machine and
  rebuilt window by window, from the first search to the last byte (`WholeDelta`).

Beside it stand

- the decoder's state machine, fed in chunks (`DecodeStates`, `DecodeInput`,
  `DecoderStream`);
- the Huffman secondary compressor: heap and code lengths (`CodeHeap`,
  `CodeTree`, `TreeHeight`, `PrefixLengths`) and why no code is cheaper
  (`LeastCost`), canonical codes (`Canonical`), move-to-front with runs (`MoveToFront`, `RunDecoder`, `RunRoundTrip`, `RunSound`),
  bits (`BitIO`), a single group (`Huffman`, `HuffmanCodec`), and several
  (`GroupPrefix`, `HuffmanGroups`, `GroupFreqs`, `GroupsCodec`, the search for them
  in `GroupSearch`, and groups that do not agree in `SkewedGroups`);
- the block cache and its client (`LruList`, `LruCache`, `SourceBlocks`);
- checksums (`Checksum`).

Code that changes state is a class or a method with loops, proved against a
function of its inputs or of the old state; what that function is good for is
proved about the function. `Options`, `Sequences` and `Bytes` hold what all
modules share. Numbers are unbounded unless a 32-bit or 64-bit limit is written
out.

## Where the code keeps less than is promised

- The decoder adds the address of a source copy to the offset of the copy window
  in its block in 32 bits, and no check of the header keeps that from wrapping.
  Then it reads four gigabytes too low and reports success. Every byte is found
  exactly when offset plus length of the copy window are at most 2^32
  (`SourceFiles.PlacedIff`); `SourceFiles.WrongBlock` is a header that passes.
  What is promised of a decoded window is promised under that condition
  (`Window.Env.Placed`).
- The encoder writes any header that its fields can hold. The decoder gets past it
  exactly when source window and target together are shorter than 2^32, the target
  is no longer than XD3_HARDMAXWINSIZE, and the source window, if there is one, ends
  below 2^64; then past the sections exactly when their sizes add up to less than
  2^32 (`DeltaFile.ReadHeader`, `DeltaFile.ReadSections`). Application data of
  2^32 - 1 bytes is refused too (`DeltaFile.ReadHead`). `DeltaFile.RefusedWindow` is a
  window that the encoder writes and the decoder refuses; a file is read to its end
  exactly when nothing in it is refused (`DeltaFile.FileReads`). What the search must
  find for all this to hold is `WholeWindow.Suits`; source and input small enough for
  that, as a caller can tell before, is `WholeWindow.SmallEnough`.
- Merging two deltas that do not belong together is noticed only for a copy that
  starts past the end of the first delta's output. A copy that runs across that end
  makes the search go on behind the last instruction, in memory that holds none
  (`Merge.MergeOutcome`, `Merge.MergeRunsPast`).
- A client that cannot supply a block any more makes the decoder fail with
  XD3_INTERNAL on a good window. The client of this repository refuses exactly the
  blocks it has evicted (`SourceFiles.RepositoryAnswers`); it evicts none while the
  copy window lies in the first 32 blocks (`WindowDecoder.Decoder.DecodeEmit`).
- `lru_cache.h` lets any id be put. Insertion keeps the cache intact exactly for
  the insertions `LruCache.Safe` describes; `LruCache.FullBroken` and
  `LruCache.FreeBroken` say what breaks otherwise, `LruCache.LowBreaksFull` and
  `LruCache.MiddleBreaksFree` show it. The client only puts ascending ids, and those
  are safe.
- A flush of the instruction buffer to get a free slot goes wrong when compaction
  leaves just one or two instructions and the one encoded overlaps what comes behind
  it: the next gap then has a negative length, which only a debugging check notices.
  `Iopt.FlushFitsIff` says exactly when, `Encoder.PartialFlushBreaks` shows a case.
  A buffer that grows, or has room for an instruction at every position of the input,
  is never flushed early; a search goes wrong only where a full buffer is flushed like
  that (`SourceMatch.Matcher.Clash`).
- With several Huffman groups the decoder reads the code lengths back exactly
  when all groups have the same zeros (`GroupPrefix.GroupsIff`). Rescaling, which
  makes zeros positive, can break this for one group alone. A group is rescaled exactly
  when the tree over its frequencies is higher than the longest code, however ties
  are broken (`PrefixLengths.BuildPrefix`, `TreeHeight.HeightOf`), so frequencies
  decide (`GroupPrefix.SameZerosIff`, `GroupsCodec.AgreeIff`). That takes 28400 bytes
  in one group at least (`GroupsCodec.ShortAlike`, `GroupFreqs.FewBytes`); with fewer
  everything the encoder writes is decoded. `SkewedGroups.GroupsDiffer` is an input
  with sectors in two groups that breaks it, sectors that a round of the search
  selects for some tables (`SkewedGroups.SkewedFound`).
- An empty source copy on a block boundary past the end of the source is accepted
  where any other copy there is refused (`Window.EmptyPastEnd`).
- Sums that wrap in 32 bits let an instruction pass that leads past the end of the
  window; the window is still refused, when its output does not fit or at the end
  (`WindowDecoder.Decoder.ParseHalfinst`, `WindowDecoder.Decoder.DecodeEmit`).

## Model

| member | source | states |
|---|---|---|
| `Merge.MergeComposes` | xdelta3-merge.h:533-584 | For well-formed deltas, applying the merged delta to the source gives the bytes of applying one delta and then the other, self-overlapping target copies included; neither table outgrows the target |
| `Merge.MergeOutcome` | xdelta3-merge.h:412-584 | The merge succeeds exactly when the input delta can be applied to the output of the first; otherwise the first fault decides: a VCD_TARGET copy or a source copy that starts past the end is answered with XD3_INVALID_INPUT, one that runs across the end is not answered at all |
| `Merge.MergeRunsPast` | xdelta3-merge.h:430-440 | Two deltas on which the search for source bytes goes on behind the last instruction |
| `Merge.MergeAssociates` | xdelta3-merge.h:533-584 | Merging three deltas in either order gives deltas of the same meaning |
| `Merge.CoverUnique` | xdelta3-merge.h:365-409 | Exactly one instruction of a tiling delta writes a given byte |
| `Merge.CopyStep` | xdelta3-merge.h:430-526 | One round of a source copy takes what one instruction supplies; the next round goes on with the next instruction |
| `Merge.SourceCopyGood` | xdelta3-merge.h:412-529 | The pieces appended for a source copy tile the requested range and show the bytes that the first delta writes there |
| `Merge.WholeState.FindPosition` | xdelta3-merge.h:365-409 | The binary search finds the covering instruction, and fails exactly past the end |
| `Merge.WholeState.MergeSourceCopy` | xdelta3-merge.h:412-529 | The recursive, appending loop builds the specified pieces and terminates: a chased copy lowers address plus size. It fails exactly when the copy starts past the end, appending nothing, and runs past the last instruction exactly when the copy goes across the end |
| `Merge.WholeState.CopyPiece` | xdelta3-merge.h:430-526 | One round: how much is taken, and the piece appended for it |
| `Merge.WholeState.FillPiece` | xdelta3-merge.h:463-520 | The instruction just allocated is completed as the right part of a run, an ADD or a copy |
| `Merge.WholeState.MergeRun` | xdelta3-merge.h:286-312 | A run is appended with its byte |
| `Merge.WholeState.MergeAdd` | xdelta3-merge.h:315-344 | An ADD is appended with its literals |
| `Merge.WholeState.MergeTargetCopy` | xdelta3-merge.h:347-362 | A target copy is appended unchanged |
| `Merge.WholeState.MergeInputs` | xdelta3-merge.h:533-584 | For any decoded input: the outcome is the specified one of three, and on success exactly the specified delta and length are built |
| `Merge.WholeState.AppendInst` | xdelta3-merge.h:163-220 | One decoded half-instruction becomes a whole-file instruction and its literals |
| `Delta.ApplyAgrees` | xdelta3-decode.h:402-596 | Running a delta byte by byte gives a target that satisfies the equation of every byte |
| `Delta.AgreesUnique` | xdelta3-decode.h:402-596 | The byte equations of a well-formed delta have one solution |
| `Delta.AgreesIffApply` | xdelta3-decode.h:402-596 | The executed and the declarative reading of a delta coincide |
| `WholeFile.AppendedWindowApplies` | xdelta3-merge.h:223-257 | Appending a decoded window to a whole-file delta appends exactly the bytes of the window to its target |
| `WholeFile.HalfAppends` | xdelta3-merge.h:163-220 | A half-instruction with file positions shows the bytes that the decoder output for it |
| `Varint.RoundTrip` | xdelta3-internal.h:191-262 | Reading what was emitted returns the number and leaves what follows |
| `Varint.ReadResumes` | xdelta3-internal.h:191-215 | An integer split over two buffers at any point reads as if contiguous |
| `Varint.OverflowIff` | xdelta3-internal.h:191-244 | An integer is rejected exactly when its value does not fit the type |
| `Varint.EmitSize` | xdelta3-internal.h:246-276 | `xd3_sizeof_uint32_t` is the length of what is emitted |
| `Varint.EmitShortest` | xdelta3-internal.h:246-276 | No encoding of a value is shorter than the emitted one |
| `Varint.EmitIs` | xdelta3-internal.h:246-262 | What is emitted are the base-128 digits of the number, the first the most significant and not zero, the high bit set in all but the last (section 2 of RFC 3284) |
| `Varint.EmitExample` | xdelta3-internal.h:246-262 | The example in that section: 123456789 is BA EF 9A 15 |
| `Varint.EmitInteger` | xdelta3-internal.h:246-262 | The buffer filled from the right holds the specified bytes and cannot run over |
| `Varint.ReadInteger` | xdelta3-internal.h:217-244 | The one-shot reader agrees with the specification, cursor included |
| `AddressCache.Lockstep` | xdelta3.c:1294-1445 | Over any run of addresses the decoder finds every address and ends with the encoder's NEAR and SAME arrays and next slot |
| `AddressCache.History` | xdelta3.c:1294-1321 | After any addresses from the start of a window, for any number of slots: NEAR slot j holds the last address whose number is j modulo the slots, SAME slot k the last address that is k modulo the slots, zero if there is none, and the next slot is the number of addresses modulo the NEAR slots |
| `AddressCache.ModesMean` | xdelta3.c:1404-1445 | What each mode number means, whatever follows: 0 the address, 1 the distance back from here, then an offset from a NEAR slot, then one of 256 SAME slots by a byte |
| `AddressCache.LeastIsShortest` | xdelta3.c:1326-1400 | No mode writes the address in fewer bytes than the winner of the search, early exit included |
| `AddressCache.DecodeExtends` | xdelta3.c:1404-1445 | An address decodes the same whatever follows it |
| `AddressCache.AddrCache.EncodeAddress` | xdelta3.c:1326-1400 | The bytes decode to the address in the chosen mode, no mode could be shorter, and the cache is updated as specified |
| `AddressCache.AddrCache.BestMode` | xdelta3.c:1340-1372 | The search over SELF, HERE and NEAR finds the least integer unless it stops at one of one byte |
| `AddressCache.AddrCache.DecodeAddress` | xdelta3.c:1404-1445 | Reads one address at a cursor as specified, 32-bit wrap-around included; the cache changes only on success |
| `AddressCache.AddrCache.UpdateCache` | xdelta3.c:1309-1321 | NEAR takes the address in the next slot in turn, SAME in the slot of its low bits; what that comes to over a window is `AddressCache.History` |
| `AddressCache.AddrCache.Init` | xdelta3.c:1294-1306 | The cache forgets everything at the start of a window |
| `CodeTable.BuildCodeTable` | xdelta3.c:890-953 | The loops fill all 256 entries with the closed form of the default table |
| `CodeTable.EntryInjective` | xdelta3.c:890-953 | No two opcodes mean the same |
| `CodeTable.Code1Complete` | xdelta3.c:973-1036 | A single opcode with the size in it is chosen whenever the table has one |
| `CodeTable.Code2Complete` | xdelta3.c:973-1036 | A double opcode is chosen whenever the table has one for the pair |
| `Window.RunAppend` | xdelta3-decode.h:364-596 | Decoding sections in two parts, whatever follows the first part, is decoding them joined |
| `Window.SingleDecodes` | xdelta3.c:2633-2658 | An instruction written with a single opcode decodes to itself |
| `Window.DoubleDecodes` | xdelta3.c:2661-2685 | Two instructions written with one opcode decode to both, in order |
| `Window.ExecuteReproduces` | xdelta3-decode.h:402-596 | An instruction whose bytes agree with a target outputs those bytes, overlap included |
| `WindowDecoder.ExecuteSplit` | xdelta3-decode.h:495-556 | A source copy executed in two parts is the whole copy |
| `WindowDecoder.OutputSplit` | xdelta3-decode.h:495-556 | Outputting the part one block supplies and then the rest with the advanced address is outputting the whole copy |
| `SourceFiles.BlksizeAdd` | xdelta3.h:1360-1379 | Block and offset after an addition in 32 bits: the position meant, or four gigabytes before it |
| `SourceFiles.PlacedIff` | xdelta3.h:1360-1379 | The decoder looks for every byte of the copy window in its place exactly when offset of the window in its block plus length of the window are at most 2^32 |
| `SourceFiles.WrongBlock` | xdelta3.h:1360-1379 | A window that passes the header checks and a byte of it sought in the wrong block |
| `SourceFiles.SourceFile.GetBlk` | xdelta3.c:1911-1970 | The block at hand, or what the client does: later, now, or refuse, which changes nothing; this repository's client refuses exactly what it has evicted |
| `SourceFiles.RepositoryAnswers` | deltamodule.c:357-390 | `get_source_block` behind `getblk`: it refuses exactly the blocks evicted, and else shows the block |
| `WindowDecoder.Decoder.constructor` | xdelta3-decode.h:95-157 | A decoder at the start of a window will produce what its sections stand for |
| `WindowDecoder.Decoder.ParseHalfinst` | xdelta3-decode.h:272-360 | Size, address and bounds checks, added up in 32 bits: what is refused is no instruction of the window; what is taken is the instruction, or one that leads past the end of the window |
| `WindowDecoder.Decoder.DecodeInstruction` | xdelta3-decode.h:364-397 | Taking one opcode keeps the window to be produced, or shows that there is none |
| `WindowDecoder.Decoder.OutputHalfinst` | xdelta3-decode.h:402-596 | One call takes at most what one source block supplies, and never more than the buffer holds; less is left, and what will be output is the same; it fails only if there is no window, or if the client refuses a block, which changes nothing |
| `WindowDecoder.Decoder.SourceCopy` | xdelta3-decode.h:495-596 | The part of a source copy one block supplies; the address left stays inside the copy window; with the block at hand there is progress |
| `WindowDecoder.Decoder.TargetCopy` | xdelta3-decode.h:559-592 | The byte-by-byte copy is the specified one even when the ranges overlap |
| `WindowDecoder.Decoder.DecodeEmit` | xdelta3-decode.h:728-807 | However often it stops for a block and is entered again, the window produced is the one the sections stand for, all three used up, if the copy window can be addressed in 32 bits; invalid input only if there is none. Every call that finds its block gets something done. XD3_INTERNAL exactly if the client refused a block; then nothing is lost, and this repository's client does not while the copy window lies in the first 32 blocks |
| `WholeDelta.DeltaDecodes` | xdelta3-decode.h:810-1219 | A delta file whose windows stand for the pieces of a target, cut into chunks anyhow, is decoded to exactly that target, headers, compressed sections, instructions and checksums together, if its sizes and positions are accepted, and refused exactly if not. Standing for a piece includes that the copy window can be addressed in 32 bits |
| `WholeDelta.EmitWindow` | xdelta3.c:2783-2885 | Any encoded window: header fields as announced, the checksum exactly if asked for, each section compressed exactly if that is asked for and saves enough; what is compressed is restored if its groups are alike; the whole stands for the input exactly if its sections decode to it and its copy window can be addressed in 32 bits |
| `WholeDelta.EmitSection` | xdelta3.c:2789-2807 | A section is replaced exactly if compression is asked for, it is long enough, and what the compressor writes saves enough or inefficient compression is asked for; the size is exact, and it is restored if its groups are alike |
| `WholeDelta.EncodeFile` | xdelta3.c:3105-3312 | Window after window searched, encoded and written, tables and source kept from one to the next: every window written stands for its input and carries its checksum exactly if that is asked for; DATA and INST are those of the instructions that a search, position by position, has found and compaction has left. With the blocks at hand and room for all instructions it succeeds whenever source, window and a block together are at most 2^32, and a window a twelfth of that |
| `WholeDelta.WrittenDecodes` | xdelta3-decode.h:810-1219 | What the whole encoder has written, cut into chunks anyhow, is decoded to the target exactly if no window is longer than XD3_HARDMAXWINSIZE |
| `WholeDelta.EmitFound` | xdelta3.c:3234-3266 | A window that has been searched, in whatever source window: the sections written stand for it, with the checksum exactly if asked for and the source window announced; DATA and INST are those of the instructions found that compaction leaves, with ADDs for the gaps |
| `WholeDelta.SearchAndEmit` | xdelta3.c:3164-3266 | A window is searched to its end, and what is sent is what that search has found, after compaction |
| `DeltaFile.FileReads` | xdelta3-decode.h:810-1219 | For any header and sections that the encoder can write, whatever the chunks: the decoder reads the file to its end exactly if everything in it is accepted, and emits every window, up to there, once, in order, with the copy window, sections, flags and checksum written for it |
| `DeltaFile.DriveWindow` | xdelta3-decode.h:983-1219 | One window makes the decoder return three times and leaves it ready for the next, or is refused: XD3_INVALID_INPUT for the header, XD3_INTERNAL for the sections |
| `DeltaFile.ReadHeader` | xdelta3-decode.h:983-1142 | The decoder gets past a header that the encoder can write if and only if source window and target fit 32 bits together, the target is not too large, the source window fits 64 bits, and the indicators are known; then it has read exactly what was written |
| `DeltaFile.ReadSections` | xdelta3-decode.h:634-712 | Each section gets its own bytes if and only if their sizes add up to less than 2^32 |
| `DeltaFile.ReadHead` | xdelta3-decode.h:843-981 | The decoder reads the file header, compressor and application data; it refuses only application data of 2^32 - 1 bytes |
| `DeltaFile.WordOfBytes` | xdelta3.c:2874-2878 | Four checksum bytes read back to the checksum |
| `DeltaFile.EmitHeader` | xdelta3.c:2726-2887 | For anything the fields can hold: the headers before the sections of a window, the file's before the first |
| `DeltaFile.RefusedWindow` | xdelta3-decode.h:1052-1072 | A run of 2^24 + 1 bytes: the header that the encoder writes for it, and the decoder refuses |
| `DeltaFile.WriteFile` | xdelta3.c:3248-3266 | Headers and sections of all windows make the delta file |
| `Secondary.EncodeSecondary` | xdelta3-second.h:247-322 | A section is replaced exactly if it has ten bytes or more, the compressor does not give up, and the size of what it writes, with the length before it, saves enough or inefficient compression is asked for; then by one that decompresses to it if the groups are alike, of exactly that size |
| `Secondary.DecodeSecondary` | xdelta3-second.h:121-175 | Size, symbols and nothing unused behind them, or failure |
| `Secondary.Decompresses` | xdelta3-second.h:121-175 | Size and coded symbols decompress to the section |
| `WholeWindow.CheckedEmit` | xdelta3-decode.h:793-807 | A window is accepted only with the announced Adler-32, and refused only for a reason |
| `WholeWindow.DecodeWindow` | xdelta3-decode.h:1154-1166 | The application's loop: each block asked for is supplied, and after at most as many calls as there are bytes, opcodes and halves left the window is there, or is refused, or the client has refused a block |
| `WholeWindow.RoundTrip` | xdelta3.c:3234-3245 | An encoded window comes back from the re-entrant decoder, checksum included; it is never refused, and the decoder fails only if the client refuses a block, which one without callback, or with all blocks read still cached, does not |
| `WholeWindow.EncodeFound` | xdelta3.c:3234-3245 | The forced flush at the end of a window: every instruction found that compaction leaves goes out, in order, from the start of the window to its end, with ADDs for the gaps and nothing else; DATA has the bytes that no run and no copy covers, and one for each run; INST their opcodes, in pairs where the table allows it. The source window is announced only now if it was not before and a copy is left, as the range of addresses copied from. The sections decode to the input, in at most twelve bytes a byte. It fails exactly if sizes do not fit 32 bits |
| `WholeWindow.MatchesRoundTrip` | xdelta3.c:3164-3245 | Whatever was found, in a source window decided early or late: encoded and decoded it is the input if the addresses of that window fit; source and window small enough are sufficient |
| `WholeWindow.SearchRoundTrip` | xdelta3.c:3164-3245 | Any window, the first or a later one, any input, source and hash tables, lazy or not, any instruction buffer and any client, with the search entered again after each block: if it ends, and the addresses fit, what it found, encoded and decoded, is the input. It ends if blocks are at hand and the buffer has room; it goes wrong only where a flush does. Addresses fit if source, input and a block are at most 2^32 together, with an input and a quarter to spare if a window was decided early |
| `Iopt.CompactOk` | xdelta3.c:2358-2501 | Compaction keeps every instruction valid and in order; forced, no two survivors overlap, else only the last two may |
| `Iopt.CompactCovers` | xdelta3.c:2358-2501 | Compaction covers nothing that was not covered, and loses at most three bytes for each instruction that it drops |
| `Iopt.StepCovers` | xdelta3.c:2390-2498 | The same for each of its rounds: of two matches that nearly coincide the shorter one is dropped, and an overlap divided loses nothing |
| `Iopt.LongerStays` | xdelta3.c:2420-2440 | Of two matches that nearly coincide at the end of a window the longer one stays, of two as long the first |
| `Iopt.BothStay` | xdelta3.c:2441-2498 | Two that overlap less are both kept, shortened so that they abut, with their outer ends |
| `Iopt.Split` | xdelta3.c:2434-2498 | Dividing an overlap never underflows: the parts abut, keep their outer ends, and are long enough to match |
| `Iopt.SplitOk` | xdelta3.c:2390-2498 | A divided list stays ordered because the third instruction starts after the first ends |
| `Iopt.TrimReproduces` | xdelta3.c:2434-2498 | Dropping the start or end of a valid instruction leaves a valid one |
| `Iopt.CompactList` | xdelta3.c:2358-2500 | The loop over the instruction buffer computes exactly the specified compaction |
| `Iopt.LastStays` | xdelta3.c:2403-2409 | Without force the last instruction stays as it is |
| `Iopt.FlushFitsIff` | xdelta3.c:2500-2538 | After a partial flush what is left, and the instruction it was made room for, begin behind what went out exactly unless one or two instructions were left by compaction and the one that went out overlaps the next |
| `Encoder.WindowEncoder.FlushInstructions` | xdelta3.c:2358-2538 | Which survivors a flush encodes, how many, with which gaps filled; forced, all. A partial flush leaves a flushable buffer exactly when compaction did not leave just two overlapping instructions |
| `Encoder.WindowEncoder.EncodeFront` | xdelta3.c:2500-2538 | The emission loop encodes the specified number of instructions from the front, in order, with the ADDs for the gaps |
| `Encoder.FilledSeamless` | xdelta3.c:2300-2351 | Survivors with their gaps filled cover the input exactly: each instruction begins where the last one ended |
| `Encoder.WholeOut` | xdelta3.c:2300-2351 | What goes out for instructions that do not overlap: each of them, in order, and ADDs for the gaps, seamless from start to end; DATA has a byte for each byte of input that no run and no copy covers, and one for each run |
| `Encoder.DataBound` | xdelta3.c:2358-2538 | The DATA of a window after compaction: besides runs, at most the bytes that no match found covers, and three for each match dropped |
| `Encoder.WholeJoined` | xdelta3.c:3234-3245 | Instructions encoded early and those left at the end are one list with the gaps filled |
| `Encoder.PartialFlushBreaks` | xdelta3.c:2403-2538 | Thirty-five equal bytes and a full buffer of four: it can be flushed, compaction frees two slots, and after the partial flush it cannot be flushed any more |
| `Encoder.WindowEncoder.EncodeList` | xdelta3.c:2321-2331 | Instructions that do not overlap are encoded one after the other, gaps filled, DATA and INST as exactly as before |
| `Iopt.RestFrom` | xdelta3.c:2500-2538 | What is left of a compacted list starts behind what went out exactly when its last two do not overlap at the cut |
| `Encoder.WindowEncoder.FinishEncoding` | xdelta3.c:2157-2294 | Literals go to DATA, a copy's address to ADDR in a mode that takes fewest bytes, the opcodes to INST by the lookahead, and what is written decodes to the input so far |
| `Encoder.WindowEncoder.EmitOperand` | xdelta3.c:2157-2262 | The operand of one instruction: literals, or the address of a copy in a mode of the cache that takes fewest bytes |
| `Encoder.WindowEncoder.Dispatch` | xdelta3.c:2264-2294 | With one instruction held back: one opcode for it and the next if the table has one for the pair, else its own opcode, and the next is held back; the sections stay decodable |
| `Encoder.WindowEncoder.EmitSingle` | xdelta3.c:2633-2658 | Opcode, and a size if the opcode has none |
| `Encoder.WindowEncoder.Add` | xdelta3.c:2300-2315 | One ADD for the gap, none if there is none |
| `Encoder.WindowEncoder.AddEncoding` | xdelta3.c:2321-2331 | The gap's ADD, then the instruction |
| `Encoder.WindowEncoder.AddFinalize` | xdelta3.c:2335-2351 | The last gap and the held instruction go out; the sections then decode to the input, DATA has exactly the literals of what was encoded, INST exactly its opcodes |
| `Encoder.WindowEncoder.EncodeWindow` | xdelta3.c:3234-3245 | For any buffered matches the three sections decode to exactly the input, all consumed; what was encoded are the survivors of compaction with the gaps filled |
| `Encoder.Finished` | xdelta3.c:2335-2351 | A finished window decodes to the input with all three sections used up |
| `SourceMatch.ForwardMatch` | xdelta3.c:3878-3910 | The integer-wise fast path and the byte loop find the longest common prefix |
| `SourceMatch.Matcher.constructor` | xdelta3.c:3083-3160 | Nothing found at the start |
| `SourceMatch.Matcher.Next` | xdelta3.c:3061-3094 | The next window: nothing found, and what is known of the source kept |
| `SourceMatch.Matcher.GetBlk` | xdelta3.c:1911-1970 | The block at hand, or what the client does: supply it, put it off, or refuse, which changes nothing; the highest block seen, its size, and the end of the source, known from a short block on, are kept exactly |
| `SourceMatch.NextBlock` | xdelta3.c:1940-1968 | A short block ends the source |
| `SourceMatch.Matcher.MatchSetup` | xdelta3.c:3723-3875 | A match is refused exactly for the three reasons, otherwise its limits are exactly those of input, source and decided window |
| `SourceMatch.Matcher.ExtendBack` | xdelta3.c:3939-4001 | Backward over blocks: what is matched is equal, and it stops at a limit or a difference |
| `SourceMatch.Matcher.ExtendForward` | xdelta3.c:4005-4056 | Forward over blocks: what is matched is equal, and it stops at a limit, the end of the source or a difference |
| `SourceMatch.Matcher.ExtendMatch` | xdelta3.c:3922-4147 | Entered any number of times: what is matched is equal and as long as possible, unless a block is out of reach; long enough, it replaces what it covers by one copy, widens the range of addresses by exactly its stretch, and goes on in the next window exactly if it ends with this one; else nothing is recorded. Order of the list, address range and source window are kept, unless getting a slot flushes and that goes wrong, which is said exactly |
| `SourceMatch.Matcher.Widen` | xdelta3.c:4095-4112 | The range of addresses takes in the stretch matched, and the end of all matches so far |
| `SourceMatch.Matcher.TakeMatch` | xdelta3.c:4058-4147 | Which copy is recorded, and when the match goes on in the next window |
| `SourceMatch.Matcher.FoundMatch` | xdelta3.c:2540-2723 | Whatever is found joins the list, in order and sound. A full buffer is flushed for a slot: compacted instructions leave the list from the front, and the window is decided before a copy does; a buffer that grows, or has room for an instruction at every position, is not. When a flush goes wrong is said exactly |
| `SourceMatch.Matcher.Flush` | xdelta3.c:2358-2538 | Which instructions leave the list, how many, and from where on the rest must begin |
| `SourceMatch.Matcher.FoundHere` | xdelta3.c:4606-4621 | A match long enough for the shortest wanted goes to the end of an ordered list, after a flush if the buffer is full |
| `SourceMatch.Matcher.Erase` | xdelta3.c:2584-2610 | Instructions that start inside the new match are dropped, from the back |
| `SourceMatch.Matcher.SrcwinSetup` | xdelta3.c:3645-3714 | The window announced, exact or guessed, the guess added up in 32 bits; it has every match found; failure exactly on a length overflow |
| `SourceMatch.Matcher.EncodedAddress` | xdelta3.c:2166-2206 | Every source copy encoded lies inside the announced window, also when that was decided early |
| `SourceMatch.Matcher.ContinueMatch` | xdelta3.c:3164-3206 | A match that reached the end of a window is tried forward at the start of the next, within the limits of a new match; not at all if it would be refused as one |
| `SourceMatch.AppendMatch` | xdelta3.c:4086-4140 | After erasing, the new match keeps starts and ends of the list strictly increasing |
| `SourceMatch.Matcher.Survivors` | xdelta3.c:3234-3245 | What was encoded early and what the last compaction leaves all reproduce the input in the window announced, and do not overlap |
| `StringMatch.Searcher.Search` | xdelta3.c:3164-3230 | The search over a window, entered any number of times: a match in progress or from the last window is brought to its end, then positions are visited one after the other to the end of the window, and what each gives is said exactly; what it finds is sound and in order. It waits only for a block not at hand, fails only for a block refused or a source of 2^32 bytes or more, and goes wrong only where a flush of a full buffer does |
| `StringMatch.Searcher.constructor` | xdelta3.c:3083-3160 | A search can start at the first window |
| `StringMatch.Searcher.Next` | xdelta3.c:3058-3094 | And at the next, the small table cleared |
| `StringMatch.Searcher.StringMatch` | xdelta3.c:4567-4836 | From restart to restart, a trail of positions each visited as `StringMatch.Searcher.Round` says, from where it starts until no more bytes are to be looked at |
| `StringMatch.Searcher.Round` | xdelta3.c:4674-4830 | One round: run, source match, target match, the next kind only if there is none of the one before; then exactly where the search goes on: behind the match, or one byte on for a lazy one or after none, with the shortest match wanted that goes with it, or not at all at the end |
| `StringMatch.Searcher.LeastMatch` | xdelta3.c:4606-4621 | After a restart a match must end behind the last one |
| `StringMatch.Searcher.TryRun` | xdelta3.c:4682-4702 | The run at the position is expanded as far as it goes, and recorded, whole, exactly if it is as long as the shortest match wanted and eight bytes |
| `StringMatch.RunFound` | xdelta3.c:4630-4702 | A search that comes to the beginning of a long enough run records it whole |
| `StringMatch.TrailCovers` | xdelta3.c:4673-4830 | Every position from the start of a search to its end is visited, or lies behind the beginning of a match recorded at the last position visited before |
| `StringMatch.Searcher.TryLarge` | xdelta3.c:4704-4741 | The slot of the large table, and the position in it tried unless it is refused; whatever the table names is a position in the source. More of the source is indexed first, if it is time |
| `StringMatch.Searcher.TryAt` | xdelta3.c:4723-4740 | A position of the source is refused for exactly three reasons; else the match goes back and forward as far as bytes, input, source and source window allow, and is recorded exactly if it is long enough forward |
| `StringMatch.Searcher.TrySmall` | xdelta3.c:4744-4797 | The slot of the small table: the walk along its chain, and a copy recorded exactly if the best it finds is long enough; the position is entered in the slot and chained to the one before |
| `StringMatch.Searcher.NextRun` | xdelta3.c:455-456 | The run as seen from the next position |
| `StringMatch.Searcher.Comprun` | xdelta3.c:1175-1189 | The run at the end of the bytes looked at, as long as it is |
| `StringMatch.Searcher.MovePoint` | xdelta3.c:4362-4530 | The source is indexed block by block to exactly the target, all of its window at first, later half a window and two blocks ahead of the input, or to its end; which positions are entered in which order, and when to go on, is exact |
| `StringMatch.Searcher.IndexBlock` | xdelta3.c:4418-4493 | The rest of one block, if it is long enough to be indexed at all |
| `StringMatch.Searcher.IndexBytes` | xdelta3.c:4458-4493 | Which positions of a block are entered, one after the other: the last with enough bytes, in any case, and in steps back as far as the old position; every other slot is as before |
| `StringMatch.CksumOffsetFinds` | xdelta3.c:3613-3632 | A position less than 2^32 before what was indexed is rebuilt from its low 32 bits |
| `TargetMatch.SmallMatch` | xdelta3.c:4201-4318 | The longest agreement along the chain, the nearest of those as long, the walk left only at a candidate long enough or one that agrees to the end; none if too short for its distance; always a copy of earlier input |
| `LruCache.Lru.Put` | lru_cache.c:106-254 | Insertion keeps array, list and data intact exactly when it is safe; then the entry is the most recent and a full cache loses exactly its least recent entry |
| `LruCache.Lru.Get` | lru_cache.c:80-103 | Found exactly when cached; the entry becomes the most recent, the others keep their order |
| `LruCache.Lru.Last` | lru_cache.c:262-264 | The entry with the highest id |
| `LruCache.Lru.FindBlock` | lru_cache.c:267-283 | The slot of the id, or its insertion point |
| `LruCache.Lru.constructor` | lru_cache.c:22-58 | A new cache is intact and empty |
| `LruCache.Lru.MoveToFront` | lru_cache.c:87-101 | Unlinking and relinking moves one entry to the front of the list of use |
| `LruCache.Lru.ShiftLeft` | lru_cache.c:125-138 | Slots shifted down with pointers repaired: the list visits the same entries in the same order |
| `LruCache.Lru.ShiftRight` | lru_cache.c:148-161 | The same for slots shifted up |
| `LruCache.Lru.PlaceFull` | lru_cache.c:119-142 | The least recent slot gives up its data and its place |
| `LruCache.Lru.PlaceFree` | lru_cache.c:143-169 | A free slot is linked in front |
| `LruCache.FullIntact` | lru_cache.c:119-142 | A full cache takes an ascending id, or one that belongs where the evicted entry was |
| `LruCache.FullBroken` | lru_cache.c:119-142 | Any other insertion into a full cache breaks the order of ids or makes two slots share data |
| `LruCache.FreeIntact` | lru_cache.c:143-169 | A cache with room takes an ascending id, or one right before the most recent entry |
| `LruCache.FreeBroken` | lru_cache.c:143-169 | Any other insertion leaves the head of the list with a predecessor |
| `LruCache.MiddleBreaksFree` | lru_cache.c:143-169 | From an empty cache: put 10, put 20, get 10, put 15, and no order of use fits the links |
| `LruCache.LowBreaksFull` | lru_cache.c:119-142 | From an empty cache of two: put 10, put 20, get 10, put 5, and it is broken |
| `LruCache.AscendingSafe` | lru_cache.c:106-168 | Ids that only go up are always safe |
| `LruCache.PresentSafe` | lru_cache.c:227-253 | Replacing a cached id is always safe |
| `LruList.MoveLinked` | lru_cache.c:125-138 | Copying a block to a free slot and repairing its neighbours replaces the slot in the list and moves nothing else |
| `LruList.ToFrontLinked` | lru_cache.c:87-101 | Bypassing a block and linking it in front keeps forward and backward links mutually inverse |
| `SourceBlocks.Source.GetSourceBlock` | deltamodule.c:357-390 | Success exposes exactly the block's bytes; XD3_TOOFARBACK exactly when the block was read before and is not among the 32 most recently used |
| `SourceBlocks.Source.ReadUpTo` | deltamodule.c:361-382 | Blocks are read until the one asked for, each put under the next id |
| `SourceBlocks.RecentIff` | deltamodule.c:357-390 | Over a whole run: a block is still cached exactly when fewer than 32 different blocks were used since its last use |
| `SourceBlocks.FewNeverRefused` | deltamodule.c:357-390 | While all blocks read fit the cache none is refused |
| `SourceBlocks.ReadFaithful` | deltamodule.c:366-377 | A block read and put keeps the mirror: highest cached id plus one is the number of blocks read, every entry is its block |
| `PrefixLengths.BuildPrefix` | xdelta3-djw.h:385-510 | Terminates; every symbol that occurs gets a length in 1..maxlen, Kraft holds with equality, the total is the exact sum of length times frequency, and no prefix code at all has a lower one, for the frequencies of the first round whose tree is no higher than maxlen; and which symbols have a code: all if the tree over the frequencies is higher than maxlen, else those that occur |
| `LeastCost.JoinsLeast` | xdelta3-djw.h:452-463 | Any lengths that satisfy Kraft cost at least what joining the two least weights, again and again, adds up to |
| `PrefixLengths.JoinsBound` | xdelta3-djw.h:452-463 | The same for lengths of the symbols that occur: the bound that the tree meets |
| `PrefixLengths.HeavierShorter` | xdelta3-djw.h:385-510 | In such a code a symbol of greater weight never has the longer code |
| `PrefixLengths.BuiltCodes` | xdelta3-djw.h:385-510 | Which symbols have a code: all once something was rescaled, else those of weight |
| `PrefixLengths.SettlesOnce` | xdelta3-djw.h:502-509 | One round of rescaling is the first whose tree is not too high |
| `PrefixLengths.CallersFit` | xdelta3-djw.h:385-510 | All callers' alphabets and limits are within the Fibonacci bound that termination needs |
| `PrefixLengths.Progress` | xdelta3-djw.h:502-509 | Every rescaling makes progress: zeros disappear, or the sum of the weights shrinks |
| `PrefixLengths.FinalCode` | xdelta3-djw.h:469-498 | Without overflow the code is complete; with it the weights sum to a Fibonacci number at least |
| `PrefixLengths.BuildTree` | xdelta3-djw.h:452-463 | Joining the two least subtrees until one is left keeps the forest, and leads to the height that the frequencies alone determine |
| `PrefixLengths.OverflowIs` | xdelta3-djw.h:469-498 | Some code is longer than the limit exactly when the tree is higher |
| `TreeHeight.JoinHeight` | xdelta3-djw.h:452-463 | A join of any two least subtrees does not change the height of the tree to come: ties do not matter |
| `TreeHeight.HeightHeavy` | xdelta3-djw.h:452-498 | A tree of some height needs a Fibonacci number of weight |
| `CodeTree.JoinForest` | xdelta3-djw.h:452-463 | A join keeps every subtree's weight, completeness, depth bound and paths |
| `CodeTree.JoinedHeavy` | xdelta3-djw.h:452-463 | The joined subtree weighs at least the Fibonacci number of its depth |
| `CodeHeap.HeapInsert` | xdelta3-djw.h:262-275 | Insertion keeps heap order and adds exactly the entry |
| `CodeHeap.HeapExtract` | xdelta3-djw.h:278-309 | Extraction keeps heap order, removes exactly one entry, and no other is less |
| `PrefixLengths.CodeLengths` | xdelta3-djw.h:469-488 | Counting parents gives the depths; overflow exactly when one exceeds the limit |
| `Canonical.BuildCodes` | xdelta3-djw.h:513-553 | Codes of one length follow each other in symbol order, from the first free word of that length |
| `Canonical.BuildDecoder` | xdelta3-djw.h:1345-1414 | BASE, LIMIT and inorder hold what decoding needs; no entry goes below zero; for any lengths |
| `Canonical.DecodeSymbol` | xdelta3-djw.h:1417-1483 | Decodes as specified, and every offset it computes is the place of a symbol, for any lengths |
| `Canonical.Inversion` | xdelta3-djw.h:513-553 | Whatever follows a symbol's code, decoding returns the symbol and stops right behind the code |
| `Canonical.DecodeIffCode` | xdelta3-djw.h:1417-1483 | A symbol is decoded exactly when its code is a prefix of the input |
| `Canonical.NextIsShare` | xdelta3-djw.h:1391-1402 | Codes up to a length and their continuations are all the words below the next code: the Kraft sum in closed form |
| `MoveToFront.ComputeMtf12` | xdelta3-djw.h:559-609 | The codes and their frequencies as specified, runs in bijective base two |
| `MoveToFront.UpdateMtf` | xdelta3-djw.h:331-340 | One symbol moves to the front |
| `MoveToFront.Recency` | xdelta3-djw.h:331-340 | After any symbols the list holds those seen in the order of when they were last seen, the latest first, and then the others in the order of the start |
| `MoveToFront.Update12` | xdelta3-djw.h:343-362 | A run becomes its digits |
| `MoveToFront.CodesSize` | xdelta3-djw.h:559-609 | Never more codes than symbols, all in range |
| `RunDecoder.Decode12` | xdelta3-djw.h:1541-1613 | Reads codes and expands runs as specified, zeros of later groups left out; fails exactly when specified |
| `RunRoundTrip.RoundTrip` | xdelta3-djw.h:559-609 | Decoding what was coded gives the values back and stops right behind, for several groups too when zeros left out agree |
| `RunSound.ReadSound` | xdelta3-djw.h:1541-1613 | Whatever is decoded was coded: the bits read are the codes of the values kept, and values left out are zero |
| `RunSound.OneReading` | xdelta3-djw.h:1541-1613 | A string of codes is read in one way |
| `RunSound.CodesCount` | xdelta3-djw.h:559-609 | Codes stand for as many symbols as were coded |
| `GroupPrefix.ComputeMultiPrefix` | xdelta3-djw.h:646-667 | The first group's lengths and the nonzero ones of the others |
| `GroupPrefix.GroupsIff` | xdelta3-djw.h:1616-1633 | The decoder gets the lengths of all groups back, and stops where they end, exactly when the groups have the same zeros |
| `GroupPrefix.SameZerosIff` | xdelta3-djw.h:1124-1160 | That is so exactly when the trees over the frequencies of all groups or of none are higher than the longest code, or every symbol has a code anyway |
| `GroupFreqs.EvolveFreqs` | xdelta3-djw.h:1056-1150 | The frequencies of every group: how often each symbol occurs in its sectors, and one for a symbol that occurs elsewhere only |
| `GroupFreqs.GroupCode` | xdelta3-djw.h:1126-1170 | Code lengths for a group, complete and cheapest for its frequencies, and the bits that its bytes take, without what is lent |
| `GroupFreqs.SectorsSize` | xdelta3-djw.h:1126-1170 | Group by group the sectors take as many bits as one after the other |
| `GroupFreqs.FewBytes` | xdelta3-djw.h:385-510 | A group of fewer than 28400 bytes is never rescaled |
| `SkewedGroups.ChainIsHigh` | xdelta3-djw.h:452-463 | When each frequency is more than all long before it together, every symbol but the first adds a level to the tree |
| `SkewedGroups.SkewedOverflows` | xdelta3-djw.h:469-509 | Fibonacci frequencies overflow exactly when the limit is less than the number of symbols less one |
| `SkewedGroups.GroupsDiffer` | xdelta3-djw.h:1124-1160 | An input and sectors in two groups, one rescaled and the other not, whose zeros differ whatever codes are made |
| `SkewedGroups.SkewedFound` | xdelta3-djw.h:1061-1123 | A round of the search that starts from the tables given selects just those groups |
| `GroupSearch.HowManyGroups` | xdelta3-djw.h:754-859 | Groups and sector size as configured or suggested, exactly; with several groups a size that can be written; failure exactly for an invalid configuration |
| `GroupSearch.InitialTables` | xdelta3-djw.h:1010-1050 | Each group favours its stretch of the alphabet: the fewest symbols that weigh an equal part of what is left. It fails exactly if some group is left without a part, and inefficient groups are not asked for |
| `GroupSearch.SelectGroups` | xdelta3-djw.h:1061-1123 | Every sector goes to the first of the groups in which it takes the fewest bits |
| `GroupSearch.Evolve` | xdelta3-djw.h:1052-1189 | The rounds from the first tables on: groups selected, tables made for them, bits counted; another round exactly after the first, and as long as fewer than six were made and the last gained enough, the difference taken in 32 bits |
| `GroupSearch.SearchGroups` | xdelta3-djw.h:885-1189 | The whole search: as many groups as there is a part for, no fewer, and the sectors that the last round from their first tables selects |
| `GroupSearch.EncodeConfigured` | xdelta3-djw.h:861-1333 | The compressor as configured, with the groups that the search comes to: what it writes has exactly the size that tables and codes come to, decodes to the input, whatever follows, if the groups found are alike, and for any input of fewer than 28400 bytes |
| `Huffman.OneBack` | xdelta3-djw.h:1636-1839 | The bits of a single group, whatever follows, read back to the input and leave what follows |
| `Huffman.ClclenBack` | xdelta3-djw.h:1486-1538 | The lengths of the code for code lengths read back, trailing zeros left out |
| `Huffman.InitClenMtf` | xdelta3-djw.h:365-378 | The initial list of code lengths |
| `HuffmanCodec.EncodePrefix` | xdelta3-djw.h:681-739 | Writes the lengths of a complete, cheapest code for code lengths, then the coded lengths |
| `HuffmanCodec.CountFreqs` | xdelta3-djw.h:613-643 | Frequencies of the bytes of the input |
| `HuffmanCodec.CostIsSize` | xdelta3-djw.h:861-959 | The bits promised by the code lengths are the bits the symbols take |
| `HuffmanCodec.EncodeSingle` | xdelta3-djw.h:861-959 | One group: group count, tables, data and zero padding bit by bit; it gives up exactly when little is saved |
| `HuffmanCodec.DecodeClclen` | xdelta3-djw.h:1486-1538 | Tables of the code for code lengths as specified |
| `HuffmanCodec.DecodeSingle` | xdelta3-djw.h:1700-1820 | Decodes a single group as specified |
| `GroupsCodec.RoundTrip` | xdelta3-djw.h:1636-1839 | Whenever the encoder succeeds, with one group or with several that are alike, the decoder recovers the input and consumes exactly the emitted bytes, whatever follows them |
| `GroupsCodec.EncodeHuff` | xdelta3-djw.h:861-1333 | With any choice of groups: it gives up exactly when little is saved, what is written has exactly the size that its tables and codes come to, the tables are cheapest for their frequencies, and it decodes to the input if the groups are alike, as the frequencies tell; a single group always is |
| `GroupsCodec.EncodeMany` | xdelta3-djw.h:961-1320 | Several groups, for any choice of sectors: group count, sector size, tables of all groups, selectors, sectors and padding bit by bit; it gives up exactly when little is saved, before or after writing tables and selectors |
| `GroupsCodec.GroupCodes` | xdelta3-djw.h:1126-1170 | Codes for all groups from the frequencies of their sectors, and exactly the bits that the sectors take |
| `GroupsCodec.EncodeSelectors` | xdelta3-djw.h:1218-1262 | A complete code for the selectors' move-to-front codes, its lengths, and the codes |
| `GroupsCodec.EncodeSectors` | xdelta3-djw.h:1271-1318 | Each sector with the code of its group |
| `GroupsCodec.DecodeHuff` | xdelta3-djw.h:1636-1839 | Decodes one or several groups as specified and consumes only the bytes it needs |
| `GroupsCodec.DecodeMany` | xdelta3-djw.h:1662-1820 | Several groups decoded as specified; every selector names a group |
| `GroupsCodec.AgreeIff` | xdelta3-djw.h:1124-1160 | Groups have the same zeros exactly when the trees over the frequencies of all or of none are too high, or every symbol occurs: told from the input and the choice of groups |
| `GroupsCodec.ShortAlike` | xdelta3-djw.h:1124-1160 | Groups of fewer than 28400 bytes each are always alike |
| `HuffmanGroups.ManyBack` | xdelta3-djw.h:1636-1839 | The bits of several groups with the same zeros, whatever follows, read back to the input and leave what follows |
| `HuffmanGroups.SectorsBack` | xdelta3-djw.h:1772-1820 | Sectors coded with the tables chosen for them read back |
| `HuffmanGroups.SectorsIs` | xdelta3-djw.h:1684-1684 | The number of sectors read is the number written |
| `BitIO.BitWriter.EncodeBits` | xdelta3-second.h:217-244 | A value is appended most significant bit first |
| `BitIO.BitWriter.EncodeBit` | xdelta3-second.h:178-207 | One bit is appended; a full byte is emitted |
| `BitIO.BitWriter.FlushBits` | xdelta3-second.h:209-215 | The last byte is filled with zeros, fewer than eight |
| `BitIO.BitReader.DecodeBits` | xdelta3-second.h:28-75 | The value of the next bits, or failure exactly when too few are left |
| `BitIO.ValueToBits` | xdelta3-second.h:28-75 | Bits written most significant first read back to the value |
| `DecodeStates.CallResumes` | xdelta3-decode.h:810-1219 | A call given more input: if it waited, the next call goes on; else it does the same and leaves the rest |
| `DecodeStates.OneResumes` | xdelta3-decode.h:810-1219 | One state blocked in a byte string, integer or section resumes where it was |
| `DecodeStates.OneSane` | xdelta3-decode.h:810-1219 | One state on any input: what the states so far were to check has been checked when it is left |
| `DecodeInput.ChunkingDoesNotMatter` | xdelta3-decode.h:810-1219 | For every split of the input the application sees the same returns with the same header fields and section contents, and the same end |
| `DecodeInput.DriveResumes` | xdelta3-decode.h:810-1219 | The application's loop over two buffers is the loop over both joined |
| `DecodeInput.AllChecked` | xdelta3-decode.h:810-1219 | For any input at all, cut into chunks anyhow: nothing is emitted whose header has not passed every check, the redundant encoding length among them, or whose sections are not there in full; and in every state that the application sees all that has been read has been checked |
| `DecodeInput.WrongLengthRefused` | xdelta3-decode.h:1120-1136 | A window whose encoding length does not repeat the others is refused as soon as its header has been read |
| `DecoderStream.Decoder.DecodeInput` | xdelta3-decode.h:810-1219 | The buffered, falling-through switch does what the states say, consumes what they consume, and keeps sections within their sizes |
| `DecoderStream.Decoder.Sections` | xdelta3-decode.h:634-712 | The three sections in one call, with and without copying; without, no byte past the input is taken |
| `DecoderStream.Decoder.DecodeSection` | xdelta3-decode.h:188-264 | A section goes on with what is at hand |
| `DecoderStream.Decoder.DecodeBytes` | xdelta3-decode.h:45-71 | A buffer is filled up to its size from what is at hand |
| `DecoderStream.Decoder.DecodeByte` | xdelta3-decode.h:30-42 | One byte, or none |
| `DecoderStream.Decoder.DecodeInteger` | xdelta3-internal.h:191-215 | A resumable integer |
| `DecoderStream.Decoder.CksumCase` | xdelta3-decode.h:1099-1142 | The checksum bytes, and the check that the redundant encoding length is right |
| `DecoderStream.Decoder.WinIndCase` | xdelta3-decode.h:983-1013 | The window indicator, the file offset and its overflow check |
| `DecoderStream.Decoder.CpyOffCase` | xdelta3-decode.h:1026-1047 | The copy window and its bounds checks |
| `DecoderStream.Decoder.TgtLenCase` | xdelta3-decode.h:1052-1072 | The target length and its overflow and size checks |
| `Checksum.Adler32` | xdelta3.c:1133-1167 | The modulus delayed for up to 5552 bytes gives the per-byte sums of RFC 1950 |
| `Checksum.NoWrap` | xdelta3.c:1125-1126 | Within 5552 bytes both sums stay below 2^32 |
| `Checksum.ModLater` | xdelta3.c:1133-1167 | Taking the modulus at the end is taking it at every byte |
| `Checksum.AdlerIs` | xdelta3.c:1133-1167 | The checksum in closed form (section 2.2 of RFC 1950): one plus all bytes, and the length plus each byte as often as bytes are left from it on, both modulo 65521 |
| `Checksum.Lcksum` | xdelta3-hash.h:108-121 | The 32-bit loop computes the two 16-bit sums |
| `Checksum.RollingUpdate` | xdelta3-hash.h:55-63 | Rolling the checksum by one byte gives the checksum of the shifted window, 32-bit wrap-around included |

## Left out

- VCD_TARGET windows and application code tables: the decoder answers XD3_UNIMPLEMENTED, and the model stops there.
- XD3_JUST_HDR, XD3_SKIP_WINDOW and XD3_SKIP_EMIT: a decoder told to skip sections or output is not modelled.
- DecodeInput.Drive: emitting a window and undoing secondary compression are one step of the application's loop, taken as a function of the decoder's state; the chunking result holds for any such function, and `WholeDelta` uses the one that rebuilds the window.
- DecoderStream.Decoder.CksumCase: the shifting of four bytes into a word is taken in one step.
- GroupSearch.EncodeConfigured: sums of costs and of bits are unbounded but for the comparison of two rounds, which wraps at 2^32 as in the original.
- SkewedGroups.SkewedFound: the tables of the round before are chosen by hand; that a whole search from its first tables comes to those groups is not shown.
- GroupsCodec.DecodeHuff: a table in which no symbol has a code, for which the original reads memory it never set, counts as invalid input.
- Canonical.BuildDecoder: requires a symbol with a code, for the same reason.
- HuffmanCodec.EncodeSingle: the sums compared to decide whether compression pays are unbounded; in the original they wrap at 2^32, which can change that decision but not the bytes.
- PrefixLengths.BuildPrefix: weights and totals are unbounded; the frequencies of a section sum to less than 2^32, so weights do not wrap in the original.
- LruCache.Lru.Put: a full cache has at least two blocks, as the client's has 32; with one, the original follows a null pointer.
- Merge.WholeState.MergeSourceCopy: what is appended once the search runs past the last instruction is left open, as it depends on memory that holds no instructions.
- Merge.WholeState.AppendInst: requires the literals of the instruction to be there; the original reads on past the end of the DATA section.
- WholeFile.HalfAppends: instructions of size zero are not covered; the encoder writes none.
- WholeFile.AppendedWindowApplies: windows with an instruction of size zero are not covered, nor VCD_TARGET windows.
- SourceFiles.BlksizeDiv: blocks are any size, where the original rounds up to a power of two and shifts.
- SourceMatch.Matcher.MatchSetup: requires a position inside the source; that the search only tries such positions is shown by StringMatch.Searcher.TryLarge. The flag XD3_BEGREEDY is not modelled: matches go back as far as what is encoded.
- SourceMatch.Matcher.Flush: what leaves the list is encoded in the model at the end of the window, in the same order; in the original at once.
- StringMatch.Searcher.Search: checksums and hash functions are left open: at each position any slot of a table can be the one looked up or entered. That waiting for blocks ends is not shown; if it waits, the positions visited are told from the last time it was entered.
- TargetMatch.SmallMatch: the chain it walks is whatever the table holds; under which checksum a position was entered is left open.
- DeltaFile.EmitHeader: the checksum taken from a delta that is being recoded is not modelled.
- WholeDelta.EncodeFile: the whole run is without secondary compression, which EmitWindow covers window by window; sections that together take 2^32 bytes or more end it, where the original's sizes wrap.
- Wininfo records of whole-file deltas, and page chaining of output: plumbing around what is modelled.
- Allocation failure, statistics, messages and debugging checks.
- The FGK and LZMA compressors: switched off in this build; their ids are refused.
- The Python glue of deltamodule.c other than `get_source_block`: reference counts and callbacks. Reading from the source file always succeeds in the model.
- xdelta3-main.h, xdelta3-blkcache.h, buffer.c and xdelta3-list.h: not part of this model.
