# Proofs for the algorithmic cores of nodeoze

These files model the self-contained algorithms of the repository in Dafny and prove what they are for. One module
stands for one component; classes and arrays stand for what the source updates in place, and each such method is
proved against a specification whose own properties are lemmas.

The main results:

- **The inflater takes exactly the streams of the standards** (`src/miniz.c`). For every byte string and every output
  buffer, `tinfl_decompress` ends well on bits that RFC 1950 and RFC 1951 account for if and only if the bytes start
  with a stream whose contents fit, and those are its output: `ZlibStream.AcceptsExactly`. What the code takes beyond
  that is listed below; one part of it, windows that the standard does not know, has its own theorem
  (`ZlibStream.LargeWindowIsTaken`). It asks for more input exactly if the answer depends on what comes
  (`ZlibStream.AsksExactly`), so that no front of a stream is ever refused. The standards' descriptions are tied to bytes
  by closed forms of all tables and by one stream of each block type (`ZlibExamples`).
- **Compression loses nothing**. Whatever is compressed, in any number of calls with any flushes and every setting of
  the parser, comes back: `ZlibStream.RoundTrip`. It rests on the parser (`LzParser`), Huffman codes that are cheapest
  (`MinimumRedundancy`, against all prefix codes), the length limiter, canonical codes, the inflater's lookup table with
  its overflow tree (`HuffmanTable`, `HuffmanDecoder`), packed code lengths, bit streams, match copying and Adler-32.
- **Patching with a difference** (`src/any.cpp`). Replaying `diff(a, b)` on `a` gives `b` if a condition on the pair
  holds that can be checked beforehand (`JsonDiffTheorems.Patchable`): on the way to a difference every key survives in
  a pointer and every index fits an int, no null comes where there was none, and each new member is named as the patcher
  names it. For documents with literal keys (not empty, no `~0` or `~1` in them) it is also the only case. What a single
  patch does to the items of an array and to the members of an object is stated one by one in `JsonPatchLaws`.
- **Continuous select** (`src/database.cpp`). For a clause whose disjuncts before the last never hold, in every run of
  statements and late dispatches, the view is the query result for every row with nothing pending exactly if no update
  takes the oid from a row that is shown and has nothing waiting. For every clause, the in-code assertion is safe exactly
  if no update takes it from one that is shown or has something waiting. The clauses that are served in every run are
  characterised exactly. A client that follows the calls then has the rows of the query, not only their oids
  (`ContinuousSelect.PictureIsCurrent`).
- **CRCs** (`include/boost/crc.hpp`, `src/miniz.c`) and **SHA-1** (`src/sha1.cpp`, `src/ws.cpp`): the fast forms equal
  the simple ones on every input; a check value, and the digest of the first example of the standard, are derived as
  numbers.
- **ZIP index**, **IP addresses**, **JSON events**: heap sort and binary search against the linear scan; the texts that
  are addresses, exactly; round trips with exact conditions.

## How the source is represented

- Bit streams are natural numbers with the first bit lowest, cut into the pieces that `TDEFL_PUT_BITS` is called with.
  Machine words of the checksums are sequences of bits, the highest first. Fixed widths and wrap-around are written out.
- Tables and arrays of the source are arrays or sequences with the same sizes; the symbol tables of lines 1769 to 1815
  of `src/miniz.c` are given in closed form, stretch by stretch.
- JSON values are finite trees. Members of an object are a map; the order in which an unordered map yields them is a
  parameter, and the theorems hold for every order; there is one (`JsonPatch.OrderExists`).
- What the inflater has not taken yet is an `Input`: its bits, their number, and, only for the proofs, the window that
  the stream has declared and whether everything before was something that the standards give a meaning to (`clean`).
- `clean` is lost on everything that the code takes although the standards do not: bits that are no code of the block
  (the source then reads symbol 0, and so does the model), the symbols 286 and 287, the length 258 written with symbol
  284, more than 286 literal and length codes, a single code of more than one bit, a CINFO above 7, and a distance
  beyond the declared window.
- The handler of a continuous select is given the row that its statement stands on. If the check statement can step to
  more than one row, a parameter (`Plan`) says which comes first, and the theorems hold for every choice.
- Concrete values are computed from the definitions: words of 32 bits as bit-vectors (`WordVectors`), streams as numbers.
- Choices that depend on sizes of encoded output (whether a block is stored, when the output buffer is full, whether
  the fixed code is used) are function parameters, and the theorems hold for all of them. So do the contents of the
  hash chains with which the compressor starts.

## Where code and documentation disagree

- `src/any.cpp:677` names an added member after the first token of the pointer; line 666 and section 4.1 of RFC 6902
  use the last one. Both readings are modelled (`AddKey`), and the exact condition is proved for each. The token is used
  as it stands, with its escapes (`JsonPatchLaws.AddMember`).
- `src/any.cpp:666` inserts at whatever index the pointer has; the test case at line 1960 wants an index behind the end to fail,
  but the iterator is out of range there (`JsonPatchLaws.AddItem`).
- `src/database.cpp:233` appends `AND oid = ?` to a clause that may contain a top-level `OR`; `CheckIsRowLocal` says
  exactly for which clauses the check is still right, and `ServedExactly` for which the view is.
- `src/database.cpp:644` announces an update with the new oid only; `CurrentExactlyIfHarmless` and `SafeExactlyIfQuiet`
  say exactly when that is harmless.
- `src/any.cpp:798` writes keys into pointers without the escapes that line 400 undoes; `PatchOfDiff` and
  `SlashesNeverChange` say what that costs.
- `src/miniz.c:1450` tests CINFO only for an output buffer that wraps, and nothing tests distances against the
  declared window, although section 2.2 of RFC 1950 does not allow a CINFO above 7 and declares the window with it.
- `src/miniz.c:1654` copies three bytes for a length of 0, which the symbols 286 and 287 give, and does not test whether
  there is room; `PutToken` and `CopyMatch` say exactly when the writes stay inside the buffer.
- `src/address.cpp:681` reads groups of more than four digits if the number fits 16 bits, which section 2.2 of RFC 4291
  does not allow, and not the dotted form that it does.
- `src/address.cpp:536` prints an encapsulated IPv4 address as four raw characters, and with only two dots; the parser
  refuses all such texts.
- `src/json.cpp`: a tree whose root is a scalar other than null does not come back, because only containers are
  delivered as roots.

## Model

| member | source | states |
|---|---|---|
| ZlibStream.RoundTrip | src/miniz.c:2636-2690 | Whatever is compressed, in any number of calls with any flushes between them and with every setting, comes back from the inflater, exactly if the output buffer has room for it |
| ZlibStream.AcceptsExactly | src/miniz.c:1431-1695 | For every byte string: the inflater ends well, on bits that the standards account for, exactly if the bytes start with a stream of RFC 1950 and RFC 1951 without a preset dictionary, with a window that the standard knows and no distance beyond it, whose contents fit the buffer; and its output is those contents |
| ZlibStream.HeaderIgnored | src/miniz.c:1450-1453 | Two headers that pass the tests are alike: with either of them the same bytes behind it give the same output or the same error, whatever window they declare |
| ZlibStream.LargeWindowIsTaken | src/miniz.c:1450-1453 | What the code takes beyond the standard: with the header 0x88 0x1C, which declares a window of 64 KB, every stream is still read as its contents, but is no stream of anything |
| InflateWindow.AlikeBlocks | src/miniz.c:1457-1670 | What is read, and the first reason to stop, do not depend on the declared window |
| ZlibStream.OneContents | src/miniz.c:1431-1695 | No byte string is a stream of two different contents |
| ZlibStream.MoreRoom | src/miniz.c:1431-1695 | A larger output buffer does not change a result |
| ZlibStream.MoreInput | src/miniz.c:1370-1388 | Bytes behind those there are never change what was read, nor an error: only a request for more input is open |
| ZlibStream.StreamInParts | src/miniz.c:1370-1388 | In front of the end of a stream the inflater asks for more input and for nothing else; with the whole stream, whatever stands behind, it gives the contents |
| ZlibStream.StreamOfFrame | src/miniz.c:1670-1697 | With blocks and frame in order, the output is what the blocks inflate to, and a wrong checksum is reported exactly if it is not that of the output |
| ZlibStream.AsksFinitely | src/miniz.c:1370-1388 | Behind every input enough zeros bring an answer, so it does not ask for ever |
| ZlibStream.AsksExactly | src/miniz.c:1370-1388 | The inflater asks for more input exactly if some continuation of the input changes the answer |
| InflateMore.MoreBlocks | src/miniz.c:1457-1670 | What is read from a front of the input, and each reason to stop but want of input, stays with more input, block by block |
| InflateMore.MoreSymbol | src/miniz.c:1394-1426 | A symbol is settled by the bits that are taken for it, also where no code accounts for them |
| InflateEnough.EnoughForBlocks | src/miniz.c:1457-1670 | With enough zeros behind the input, reading blocks ends |
| InflateEnough.EnoughForBlock | src/miniz.c:1459-1669 | The most bits that a block can take, for an output buffer of a given size |
| ZlibStream.UsualHeaders | src/miniz.c:1450-1452 | Behind 0x78 exactly the bytes 0x01, 0x5e, 0x9c and 0xda make a header: each compression level once, without a dictionary |
| ZlibStream.EveryLevel | src/miniz.c:1450-1452 | For every first byte with method 8 and every level there are check bits with which the header is taken |
| ZlibExamples.StoredStream | src/miniz.c:1431-1695 | The 14 bytes of a stored block with header and checksum are a stream of the text "abc" |
| ZlibExamples.FixedStream | src/miniz.c:1431-1695 | Ten bytes with the fixed codes, a literal and a match at distance 1, are a stream of ten equal letters |
| ZlibExamples.OwnStream | src/miniz.c:1431-1695 | Twenty-six bytes with a code of their own, which is sent with repetitions and runs of zeros of each kind, are a stream of three times six letters |
| ZlibStream.Decompress | src/miniz.c:1431-1695 | On whatever bytes and into whatever buffer, the bytes written and the status are those of the specification; what ends well is clean exactly if the bytes start with a stream of those contents, and what stops starts with none that would fit |
| ZlibStream.Compress | src/miniz.c:2161-2262 | The bytes are exactly one stream of everything put in: header, blocks that stay inside the declared window, padding and the checksum kept up from call to call |
| ZlibStream.FrameCount | src/miniz.c:2215-2226 | Whatever the blocks are, the stream ends on a byte boundary |
| DeflateStream.WriteBlocks | src/miniz.c:2185-2226 | Exactly the pieces of the blocks are written, the final bit set in the last block only |
| DeflateStream.WriteBlock | src/miniz.c:2185-2213 | Final bit, type, then the block stored, in the fixed code, or in a code of its own together with the header that describes it |
| DeflateStream.WriteStored | src/miniz.c:2197-2206 | Padding to a byte, the length, its complement, and the bytes |
| DeflateStream.InflateNext | src/miniz.c:1457-1670 | If a list of blocks can be inflated, so can each front of it, and each block extends the output of the ones before it |
| InflateStream.ReadBlocks | src/miniz.c:1457-1670 | On any input, block after block up to the final bit goes into the output buffer, or the first reason to stop is reported |
| InflateStream.ReadOneBlock | src/miniz.c:1459-1669 | On any input, one block of any type; type 3 is refused |
| InflateStream.ReadStored | src/miniz.c:1462-1489 | On any input and at any bit position: the rest of the byte is skipped, a length that disagrees with its complement is refused, and a full buffer or missing bytes stop the copy |
| InflateStream.BlocksOfFront | src/miniz.c:1457-1670 | The bits of any list of blocks, in any forms, with distances inside the window are read as what the blocks inflate to |
| InflateStream.FrontOfBlocks | src/miniz.c:1457-1670 | Whatever is read cleanly is the bits of such a list, and the output is what it inflates to |
| InflateStream.FrontOfStored | src/miniz.c:1462-1489 | What passes for a stored block is one, whatever bits were skipped in front of it |
| InflateStream.MoreRoomForBlocks | src/miniz.c:1457-1670 | The size of the buffer matters to no result but that it is too small |
| InflateHeader.ReadHeader | src/miniz.c:1502-1550 | On any input, the tables decode exactly the two codes that the bits describe, and everything else is refused |
| InflateHeader.ReadThird | src/miniz.c:1505-1505 | Lengths that are not sent are zero, the others land at their symbols |
| InflateHeader.ThirdInOrder | src/miniz.c:1434-1434 | Which field is the length of which symbol, in closed form: 16, 17, 18, 0, and then from 8 one up and one down; symbols without a field have no code |
| InflateHeader.FieldsInOrder | src/miniz.c:1934-1988 | The lengths are written in that order |
| InflateHeader.ReadLengths | src/miniz.c:1535-1548 | On any input the two code-length vectors are expanded, or refused for a repetition of nothing or one symbol too many, with no write past the buffer of 457 bytes |
| InflateHeader.CodesOfFront | src/miniz.c:1502-1550 | The bits of a header are read as the codes it describes |
| InflateHeader.FrontOfCodes | src/miniz.c:1502-1550 | What is read cleanly as a header is the bits of one |
| InflateBlock.ReadBlock | src/miniz.c:1552-1668 | On any input, literals and matches go into the output buffer up to the end of the block, or to the first reason to stop: too little input, a full buffer, a distance before the start, or three bytes for a length of 0 that would go behind the buffer |
| InflateBlock.ReadItem | src/miniz.c:1555-1612 | On any input the next symbol with its extra bits is the end, a literal or a match, with the length 0 for the symbols 286 and 287 |
| InflateBlock.PutToken | src/miniz.c:1562-1667 | A literal or a match extends the output, or is refused or stopped exactly for its distance or for want of room; a length of 0 writes three bytes, which stay inside the buffer exactly if three are free |
| InflateBlock.OutputOfFront | src/miniz.c:1552-1668 | The bits of a block of legal tokens with distances inside the window give what the tokens stand for |
| InflateBlock.FrontOfOutput | src/miniz.c:1552-1668 | What is read cleanly as a block of codes is the bits of legal tokens with distances inside the window that stand for the output |
| FixedCode.StaticAccepted | src/miniz.c:2003-2006 | The fixed literal and distance codes are full codes |
| FixedCode.FixedCodes | src/miniz.c:1499-1500 | The lengths and codes of section 3.2.6 of RFC 1951, number by number |
| FixedCode.StaticTable | src/miniz.c:1874-1903 | For given lengths the codes are the canonical ones |
| DynamicHeader.StartDynamicBlock | src/miniz.c:1936-1996 | The header that is written describes two codes in which every counted symbol has a code, full ones or, for a single symbol, of one bit; the codes used for writing are those |
| DynamicHeader.FrontTable | src/miniz.c:1943-1947 | The codes are the cheapest of at most 15 bits (where limiting leaves them so), and unused symbols at the end, all but the least number, are left out without changing the codes of the others |
| DynamicHeader.FrontIsTable | src/miniz.c:1946-1950 | Canonical codes of a code-length vector and of its front agree when the rest is zero |
| DynamicHeader.ThirdTable | src/miniz.c:1979-1979 | Each symbol that the packed vector uses gets a code, the cheapest of at most seven bits where limiting leaves it so |
| DynamicHeader.PutHeader | src/miniz.c:1981-1995 | The three counts, the lengths of the third code in their order, and the packed lengths |
| DeflateBlock.CompressLzCodes | src/miniz.c:2109-2152 | Each token is written as the code of its symbol, with the extra bits of length and distance, and the end of the block last |
| DeflateBlock.Tally | src/miniz.c:2467-2495 | The counts of the symbols are those of the tokens, none wraps in 16 bits, and the unused symbols stay at zero |
| DeflateSymbols.LengthIsRead | src/miniz.c:1769-1784 | Compressor and inflater tables agree: base plus low bits is the length, and both know how many bits those are |
| DeflateSymbols.DistanceIsRead | src/miniz.c:1786-1815 | The same for every distance up to 32768 |
| DeflateSymbols.LengthIsWritten | src/miniz.c:1430-1431 | Every length symbol with its extra bits is what the compressor writes for that length, but for 258 taken from symbol 284 |
| DeflateSymbols.DistanceIsWritten | src/miniz.c:1432-1433 | The same for distances, without an exception |
| DeflateSymbols.LengthTable | src/miniz.c:1430-1431 | The lengths that the symbols stand for start at 3 and follow on without a gap; 258 has a symbol of its own |
| DeflateSymbols.LengthBitsTable | src/miniz.c:1430-1431 | Eight symbols without extra bits, then four for each number of extra bits |
| DeflateSymbols.DistanceTable | src/miniz.c:1432-1433 | The distances start at 1 and follow on without a gap |
| DeflateSymbols.DistanceBitsTable | src/miniz.c:1432-1433 | Four symbols without extra bits, then two for each number of extra bits |
| BitPieces.PackedConcat | src/miniz.c:1906-1915 | Bits written one piece after the other are the concatenation of the pieces |
| BitPieces.BitReader.Get | src/miniz.c:1386-1388 | The next bits of the input, or a call for more input |
| BitPieces.BitReader.Decode | src/miniz.c:1394-1426 | The next symbol, or a call for more input exactly if the bits there are do not settle it |
| BitPieces.SymbolOfFront | src/miniz.c:1413-1426 | In front of the code of a symbol that symbol is read, and nothing behind it is touched |
| BitPieces.FrontOfSymbol | src/miniz.c:1413-1426 | A symbol that is read cleanly was in front |
| BitPieces.WholeBytes | src/miniz.c:1906-1915 | With no bits waiting, the output bytes hold exactly the pieces |
| LzParser.CompressBuffer | src/miniz.c:2636-2690 | In any number of calls with any flushes between them and a final one, the blocks inflate to everything put in, each within the limits of the code buffer or of a stored length |
| LzParser.Compressor.Compress | src/miniz.c:2636-2690 | After each call the state is one in which blocks, tokens and the pending byte stand for the input so far; after a flush of any kind the blocks alone do, and one in the middle ends with an empty stored block |
| LzParser.Compressor.MarkFlush | src/miniz.c:2222-2225 | The empty stored block adds nothing to what the blocks inflate to |
| LzParser.Compressor.CompressNormal | src/miniz.c:2497-2613 | Input is consumed from the front; with a flush nothing is left in the lookahead |
| LzParser.Compressor.Step | src/miniz.c:2544-2608 | One round keeps the invariant: expanding the recorded tokens and the pending literal gives exactly the input before the lookahead |
| LzParser.Compressor.Parse | src/miniz.c:2563-2594 | Lazy or greedy, what is recorded, deferred and skipped adds up to the input; deferring is the only case with a pending match |
| LzParser.Compressor.Fill | src/miniz.c:2505-2540 | The dictionary holds the window of the input, with its first 257 bytes repeated behind its end |
| LzParser.Compressor.FindMatch | src/miniz.c:2299-2325 | Whatever the hash chains hold, a reported match is one: 3 to 258 equal bytes at a distance inside the dictionary |
| LzParser.Compressor.Compare | src/miniz.c:2318-2318 | The bytes compared are equal bytes of the input |
| LzParser.Compressor.Choose | src/miniz.c:2545-2562 | The match to consider is genuine, also in run-length mode |
| LzParser.Compressor.RecordLiteral | src/miniz.c:2467-2473 | One literal more; the code buffer is not overrun |
| LzParser.Compressor.RecordMatch | src/miniz.c:2475-2495 | One match more; the code buffer is not overrun |
| LzParser.Compressor.FlushBlock | src/miniz.c:2161-2219 | A new block that continues the inflated output by exactly the bytes counted for it |
| LzParser.Compressor.StoredBytes | src/miniz.c:2203-2206 | The bytes of a stored block, read back from the circular dictionary, are those of the input |
| LzParser.NothingPending | src/miniz.c:2563-2594 | Once the lookahead is used up no match is pending |
| LzDictionary.ChainPosition | src/miniz.c:2311-2315 | A 16-bit difference of positions leads to the right place of the dictionary |
| LzDictionary.PutGrows | src/miniz.c:2516-2519 | A new byte moves the window by one and keeps the mirrored tail right |
| LzDictionary.ReadAhead | src/miniz.c:2303-2318 | Reading up to 257 bytes on from any place never wraps and yields the input |
| LzTokens.CopyOfMatch | src/miniz.c:1620-1667 | Copying a genuine match reproduces the input, also where it overlaps itself |
| LzTokens.ExpandConcat | src/miniz.c:1552-1668 | Expanding tokens in two parts is expanding them at once |
| MatchCopy.CopyMatch | src/miniz.c:1614-1667 | For every length, also 0, and on every path the buffer ends up as after copying byte by byte from `dist` back, unless a wrapping buffer is smaller than the distance and words overlap; a distance before the start is refused; without room the copy stops where it can resume; only for the length 0, and exactly if fewer than three bytes are free, a write would go behind the buffer |
| MatchCopy.SequentialIsCopyBack | src/miniz.c:1620-1630 | In a buffer that has not wrapped, byte-by-byte copying is the copy of section 3.2.3 of RFC 1951 |
| MatchCopy.CopyWords | src/miniz.c:1632-1640 | Eight bytes at a time equal eight single copies where source and destination are four apart |
| MatchCopy.FourAtOnce | src/miniz.c:1637-1638 | Reading four bytes and then writing them is four single copies unless they overlap upwards |
| MatchCopy.CopyThrees | src/miniz.c:1654-1667 | Three at a time with a tail equals single copies, overlapping or not; a length below three copies three |
| MatchCopy.CopyMasked | src/miniz.c:1622-1630 | One at a time with the index masked, as far as there is room |
| HuffmanCode.PrefixFree | src/miniz.c:1896-1903 | No canonical code is the beginning of another symbol's code |
| HuffmanCode.SpellsOne | src/miniz.c:1896-1903 | A bit buffer starts with the code of at most one symbol |
| HuffmanCode.CodeFits | src/miniz.c:1896-1903 | Every code fits in its number of bits |
| HuffmanCode.PrefixesFit | src/miniz.c:1510-1532 | A code that the inflater accepts needs no more inner nodes than its overflow tree of 576 slots has |
| HuffmanEncoder.AssignCodes | src/miniz.c:1896-1903 | The codes written are the canonical ones with their bits reversed |
| HuffmanEncoder.ReverseBits | src/miniz.c:1901-1901 | The loop reverses the bits of a code |
| HuffmanEncoder.BitWriter.PutBits | src/miniz.c:1906-1915 | The stream grows by the bits; fewer than eight wait in a buffer that never exceeds 32 bits |
| HuffmanTable.ChildAdded | src/miniz.c:1526-1529 | A new inner node keeps the table right for all symbols entered before |
| HuffmanTable.LeafAdded | src/miniz.c:1530-1530 | A leaf lands in a slot that nothing else can need |
| HuffmanTable.ShortEntered | src/miniz.c:1523-1523 | Filling all indices that begin with a short code keeps the table right |
| HuffmanDecoder.DecodeTable.Build | src/miniz.c:1510-1532 | The table is built exactly for full codes and for at most one code, and then decodes them |
| HuffmanDecoder.DecodeTable.Decode | src/miniz.c:1421-1426 | On any buffer: the symbol whose code is in front with the length of its code, and symbol 0 with the exact number of bits walked if there is none |
| HuffmanDecoder.UniquelyDecodable | src/miniz.c:1896-1903 | Different sequences of symbols, of whatever numbers, never have the same bits |
| HuffmanDecoder.RoundTrip | src/miniz.c:1413-1426 | Every sequence of symbols that have codes is decoded from its own encoding |
| CodeCost.MergeBound | src/miniz.c:1840-1845 | Replacing the two lightest symbols by their sum lowers the cost of the best prefix code by exactly the sum |
| CodeCost.SwapIsNoWorse | src/miniz.c:1840-1845 | Giving the longer code to the lighter symbol costs no more |
| MergeRun.Run.LowerBound | src/miniz.c:1840-1845 | No prefix code costs less than the sums that a greedy run makes |
| MergeTree.LeavesAreOptimal | src/miniz.c:1836-1854 | The leaf depths of a greedy run cost no more than any prefix code |
| MergeTree.LeavesAreFull | src/miniz.c:1836-1854 | The leaf depths fill the code space exactly |
| MergeTree.DepthIsBounded | src/miniz.c:1836-1854 | A total below 65536 keeps every leaf within 30 levels |
| MinimumRedundancy.CalculateMinimumRedundancy | src/miniz.c:1836-1854 | In place, ascending positive frequencies with a sum below 65536 become non-increasing lengths of a full prefix code that no prefix code beats; no 16-bit field overflows |
| MinimumRedundancy.Join | src/miniz.c:1840-1845 | The joining loop takes the two lightest nodes in every step and leaves the parent of each inner node in its place |
| MinimumRedundancy.ParentsToDepths | src/miniz.c:1846-1846 | In place, parents become depths |
| MinimumRedundancy.DepthsToLengths | src/miniz.c:1847-1853 | In place, the depths of the inner nodes become the depths of the leaves |
| CodeLimiter.EnforceMaxCodeSize | src/miniz.c:1858-1869 | The loop ends with the code space exactly full, the number of codes kept and no negative count; a code that fits is left alone |
| CodeLimiter.Demote | src/miniz.c:1863-1868 | There always is a code to demote, the longest below the limit |
| CodeLimiter.CodeSpace | src/miniz.c:1862-1862 | The 32-bit sum is the space the codes take |
| CodeLimiter.FoldedSums | src/miniz.c:1861-1861 | Shortening the codes over the limit takes at most one unit too much for each code |
| RadixSort.RadixSortSyms | src/miniz.c:1819-1833 | The result is the same symbols in ascending order of frequency, equal ones in their old order |
| RadixSort.Pass | src/miniz.c:1826-1830 | One pass puts the symbols into their buckets in order |
| RadixSort.PassKeepsTally | src/miniz.c:1822-1830 | The histogram of the second byte stays right across the first pass |
| RadixSort.BucketsSorted | src/miniz.c:1824-1831 | After each pass the symbols are sorted by the bytes done so far |
| HuffmanOptimizer.OptimizeTable | src/miniz.c:1871-1904 | Symbols that occur get lengths within the limit, more frequent ones no longer ones; the code is full, or one bit for a single symbol; and no code is cheaper if a cheapest one is within the limit |
| HuffmanOptimizer.AssignSizes | src/miniz.c:1891-1893 | Each used symbol gets one length, shorter ones go to more frequent symbols, and all counts are used up |
| HuffmanOptimizer.CompressAndInflate | src/miniz.c:1871-1904 | Counting, choosing codes, writing and decoding give the symbols back |
| CodeLengthPacking.Pack | src/miniz.c:1953-1977 | The packed vector expands to the lengths, is never longer than they are, each count fits its extra bits, and the symbols are counted right |
| CodeLengthPacking.Unpack | src/miniz.c:1535-1548 | On every stream of symbols, the loop does what the format says, fails where it must, and never writes past its 457 bytes |
| CodeLengthPacking.InflatedPacked | src/miniz.c:1535-1548 | A packed vector inflates to itself whatever follows it |
| CodeLengthPacking.RoundTrip | src/miniz.c:1953-1977 | Unpacking what was packed gives the lengths back |
| Adler32.Checksum | src/miniz.c:977-990 | For every starting value and every input, blocks of 5552 bytes reduced once give the byte-by-byte checksum |
| Adler32.ReachFits | src/miniz.c:980-988 | Within a block neither sum overflows 32 bits, even from unreduced halves |
| Adler32.AdlerConcat | src/miniz.c:977-990 | A checksum can be continued from the checksum of what came before |
| Adler32.SumContinues | src/miniz.c:977-990 | Also from the word it was packed into |
| Adler32.AdlerIsSums | src/miniz.c:977-990 | The two halves are the sum of the bytes from 1 on and the sum of those sums, modulo 65521 |
| CrcDivision.DivideAtOnce | include/boost/crc.hpp:955-965 | Dividing k bits at once: look up the top bits with the message added, shift the rest |
| CrcDivision.RemainderConcat | include/boost/crc.hpp:784-797 | The remainder over a concatenation is the remainder over the second part from the first's |
| Crc.Reflect | include/boost/crc.hpp:307-326 | The low bits come out in the opposite order, in the width of the register |
| Crc.CrcBasic.ProcessBit | include/boost/crc.hpp:727-751 | One step of polynomial division, whatever the width of the register |
| Crc.CrcBasic.ProcessByte | include/boost/crc.hpp:772-782 | A byte, reflected if asked for, is divided bit by bit |
| Crc.CrcBasic.Sum | include/boost/crc.hpp:814-823 | The remainder, reflected and inverted as the parameters say |
| Crc.InitTable | include/boost/crc.hpp:488-536 | Every entry is the remainder of its index, reflected with the input |
| Crc.ByteStepReflected | include/boost/crc.hpp:955-965 | In the reflected register one table step is eight divisions in the other direction |
| Crc.CrcOptimal.ProcessBlock | include/boost/crc.hpp:944-966 | The table-driven remainder is the reflection of, or equal to, the bitwise one |
| Crc.CrcOptimal.Sum | include/boost/crc.hpp:984-995 | The checksum is the one of the bitwise class |
| Crc.Agree | include/boost/crc.hpp:944-966 | Table-driven and bitwise checksums agree for all parameters, inputs, splits into blocks and register widths |
| NibbleCrc.TableIsRight | src/miniz.c:993-998 | Each of the 16 entries is the division of its four bits by the polynomial of `crc_32_type` |
| NibbleCrc.MzCrc32 | src/miniz.c:993-1001 | The method computes the fold of two look-ups per byte between two complements |
| NibbleCrc.IsCrc32 | src/miniz.c:993-1001 | From zero, it is the checksum of `crc_32_type` |
| NibbleCrc.Continues | src/miniz.c:993-1001 | Continuing from a checksum is the checksum of the concatenation |
| NibbleCrc.AllAgree | include/boost/crc.hpp:97-98 | Three implementations, one CRC-32, on every input |
| Crc32Example.CheckValue | src/miniz.c:993-1001 | The checksum of the digits from 1 to 9 is 0xcbf43926, by the look-ups and by the definition |
| RollingSha1.Sha1.Transform | src/sha1.cpp:130-241 | The ring of 16 words and the rotating register roles compute the compression function of FIPS 180-4, section 6.1.2 |
| RollingSha1.NextWord | src/sha1.cpp:130-241 | The word computed in place in the ring is the word of the 80-word schedule |
| RollingSha1.OneRound | src/sha1.cpp:130-241 | A round that writes two registers is a round of the standard with the roles renamed |
| Sha1Spec.ConstantIsRoot | src/sha1.cpp:144-148 | The constants of the four quarters are the roots of 2, 3, 5 and 10 times 2 to the 30, rounded down |
| Sha1Example.DigestOfAbc | src/sha1.cpp:111-241 | The digest of "abc" is the one of appendix A.1 of FIPS 180-2, word by word |
| Sha1Example.TextOfAbc | src/sha1.cpp:96-103 | As text that is a9993e364706816aba3e25717850c26c9cd0d89d |
| Sha1Spec.GapIsLeast | src/sha1.cpp:65-95 | No fewer zeros would fill the last block |
| RollingSha1.Sha1.Update | src/sha1.cpp:48-62 | However the stream is cut, all whole blocks are hashed and the rest is in the buffer |
| RollingSha1.Sha1.Final | src/sha1.cpp:65-108 | The result is the digest of everything put in, as text, and everything starts again |
| RollingSha1.TextIsDigest | src/sha1.cpp:96-103 | Forty characters, from which the five words can be read back |
| RollingSha1.Sha1.BufferToBlock | src/sha1.cpp:244-254 | Big-endian words |
| Hasher.Hasher.ProcessMessageBlock | src/ws.cpp:278-366 | The written-out schedule and the four loops compute the same compression function |
| Hasher.Hasher.Input | src/ws.cpp:169-206 | Bytes extend the message; the object is spoilt exactly by input after the result or by 2 to the 64 bits |
| Hasher.Hasher.PadMessage | src/ws.cpp:369-415 | Padding in one or two blocks gives the digest of the message |
| Hasher.Hasher.Result | src/ws.cpp:144-166 | The digest of the message unless the object is spoilt, also when asked for again |
| Hasher.LengthNext | src/ws.cpp:187-197 | The two halves of the length count bits modulo 2 to the 64 and overflow together |
| Hasher.Agree | src/ws.cpp:144-415 | Both implementations give the digest of FIPS 180-4 for every message below 2 to the 64 bits, fed in two parts cut anywhere; the text of the one is the text of the words of the other |
| FileOrder.FilenameLess | src/miniz.c:3107-3122 | The comparison of the names in lower case |
| FileOrder.FilenameCompare | src/miniz.c:3464-3478 | Zero exactly for equal names; the sign is right for names of up to 65535 bytes |
| FileOrder.SameLetter | src/miniz.c:2947-2947 | Two bytes count as the same exactly if they are, or are the two forms of an ASCII letter, which counts as its small form |
| FileOrder.DictionaryOrder | src/miniz.c:3107-3122 | A name comes before its continuations, and else the first different byte decides |
| FileOrder.PrecedesTransitive | src/miniz.c:3107-3122 | The order is transitive |
| FileOrder.PrecedesTotal | src/miniz.c:3107-3122 | The order is total and strict |
| ZipIndex.SortByFilename | src/miniz.c:3127-3166 | The index ends up a permutation of itself, in order of the names in lower case |
| ZipIndex.SiftDown | src/miniz.c:3138-3163 | From a heap with one bad root, a heap of the same indices |
| ZipIndex.RootIsLast | src/miniz.c:3151-3165 | Nothing in a heap comes after its root |
| ZipIndex.Archive.BinarySearch | src/miniz.c:3480-3500 | A file of that name exactly if there is one |
| ZipIndex.Archive.LinearScan | src/miniz.c:3509-3539 | The first file of that name exactly if there is one |
| ZipIndex.Archive.Locate | src/miniz.c:3502-3539 | Either search, the same answer as to existence |
| ZipIndex.SearchesAgree | src/miniz.c:3480-3539 | Binary search finds a file exactly when the scan does, and what it finds has the name; also in an empty archive |
| JsonPointer.EqualsIsEquality | src/any.cpp:316-392 | The recursive comparison is equality of trees |
| JsonPointer.TokensOfJoin | src/any.cpp:400-415 | A pointer written by the differ splits into the tokens it was made of |
| JsonPointer.DecimalToken | src/any.cpp:446-464 | An index written in decimal is read back as the index |
| JsonPointer.NumberIsRead | src/any.cpp:446-464 | What `std::stoi` reads: blanks, a sign, the digits of a number of 32 bits, and then anything |
| JsonPointer.EscapeIsRead | src/any.cpp:398-401 | Every key, written with the escapes of section 3 of RFC 6901, comes back |
| JsonDocument.Document.Find | src/any.cpp:395-489 | The walk stops in front of the last token or at the first token that selects nothing |
| JsonDocument.Document.Apply | src/any.cpp:517-689 | In place, the effect of a patch on the document is that of the specification, and so is the error |
| JsonDocument.Document.PatchAll | src/any.cpp:494-513 | The entries are applied in order up to the first that fails |
| JsonPatchLaws.AddItem | src/any.cpp:655-669 | Adding at an index leaves an array one longer: the items before it as they were, the value there, and each later item one further on; behind the end the iterator is out of range, and an index that is no int throws |
| JsonPatchLaws.AppendItem | src/any.cpp:655-663 | Adding at "-" puts the value behind all items |
| JsonPatchLaws.RemoveItem | src/any.cpp:564-583 | Removing at an index leaves the items before it and moves the later ones one back; anything else is refused |
| JsonPatchLaws.ReplaceItem | src/any.cpp:585-604 | Replacing at an index changes that item alone; anything else is refused |
| JsonPatchLaws.AddMember | src/any.cpp:671-680 | Adding a member that is there replaces it; a new one gets a token of the pointer as its name, as it stands, and all other members stay |
| JsonPatchLaws.RemoveMember | src/any.cpp:564-583 | Exactly the member goes, or the patch is refused for want of it |
| JsonPatchLaws.ReplaceMember | src/any.cpp:585-604 | Exactly the member changes, or the patch is refused |
| JsonPatchLaws.OthersStay | src/any.cpp:517-689 | No other child of the changed one's parent changes |
| JsonPatchLaws.NothingBelow | src/any.cpp:395-489 | Behind a token that selects nothing every patch is refused |
| JsonPatchLaws.ScalarStays | src/any.cpp:655-684 | In a value that is no container an addition succeeds without effect, and the others are refused |
| JsonPatchLaws.WholeDocument | src/any.cpp:517-535 | With an empty pointer the document is dropped or replaced as a whole |
| JsonPatchLaws.AddInTheMiddle | src/any.cpp:1947-1949 | The case of the test with an item added in the middle |
| JsonPointer.TokensBelow | src/any.cpp:400-415 | What follows a written pointer is split on its own |
| JsonPlaces.GetPut | src/any.cpp:395-489 | Reading a place that was written gives what was written |
| JsonPlaces.ApplyIsLocal | src/any.cpp:517-689 | A pointer that passes through a value changes nothing but that value |
| JsonPlaces.ReplayAppend | src/any.cpp:494-513 | Two lists of patches one after the other, unless the first stops |
| JsonPaths.PlainExactly | src/any.cpp:400-437 | A key survives in a pointer exactly if it is not empty and has no slash and no escape in it |
| JsonPaths.PatchesBelow | src/any.cpp:693-837 | Every patch for a pair of values replaces the left one or leads into it |
| JsonPaths.SlashesStay | src/any.cpp:517-689 | Any list of patches inside an object leaves its members with a slash in their keys as they were |
| JsonPaths.HugeIndexRefused | src/any.cpp:446-464 | Nothing at or below an index of 2 to the 31 or more is patched |
| JsonDiffTheorems.LeftoversGo | src/any.cpp:764-771 | Removing at the same index over and over removes exactly the leftover items |
| JsonDiffTheorems.NewItemsCome | src/any.cpp:773-780 | Appending stops at the first null, and only there |
| JsonDiffTheorems.ItemsReplayed | src/any.cpp:753-762 | The common items become the right ones exactly where they are patchable, the others stay |
| JsonDiffTheorems.MembersReplayed | src/any.cpp:786-796 | Members of the left object become the right ones exactly where they are patchable, or go |
| JsonDiffTheorems.NewMembersReplayed | src/any.cpp:798-804 | New members come, under the name that the patcher gives them |
| JsonDiffTheorems.Replayed | src/any.cpp:693-814 | At any depth, replaying the difference of two values found at a place turns it into the second one if and only if the pair is patchable, and changes nothing else; for patchable pairs with any keys, and for all pairs with literal keys |
| JsonDiffTheorems.PatchOfDiff | src/any.cpp:693-837 | Patching with the difference gives the second document if the pair is patchable, whatever keys there are away from the differences, and then every patch succeeds; with literal keys it does so only then; under either reading of line 677 |
| JsonDiffTheorems.SlashesNeverChange | src/any.cpp:693-837 | With literal keys, no member with a slash in its key is ever created, changed or removed, so a difference there is never made up for |
| JsonDiffTheorems.NoPatches | src/any.cpp:693-814 | The difference is empty exactly for equal values |
| JsonDiffTheorems.DiffIsEmptyIffEqual | include/nodeoze/any.h:164-172 | The difference is the null list exactly if the comparison says equal |
| JsonDiffTheorems.NestedMemberIsMisnamed | src/any.cpp:677-677 | Adding a member k to an object that is the member x of the root works with the last token as key, and with the first one exactly if k is x |
| JsonDiffTheorems.SlashInKeyIsRefused | src/any.cpp:798-804 | The smallest case of a new member with a slash in its key: the patch is refused |
| JsonExclusions.DiffWithExclusions | src/any.cpp:816-837 | At any depth, exclusions leave out the patches for the listed paths and nothing else |
| JsonExclusions.DiffIsEmptyIffExcluded | include/nodeoze/any.h:164-172 | The difference with exclusions is null exactly if every patch of the full one is for a listed path |
| JsonPatch.OrderExists | src/any.cpp:786-804 | The order that stands for the iteration of an unordered map exists |
| ContinuousSelect.CheckIsRowLocal | src/database.cpp:227-234 | The check statement answers for one row on every table exactly if no disjunct but the last of the clause can hold, since AND binds tighter than OR |
| ContinuousSelect.StepKeepsView | src/database.cpp:248-333 | If the earlier disjuncts of the clause never hold (`RowLocal`), every statement and dispatch but a harmful change of an oid keeps, per row, bitmap, pending changes and existence fitting together |
| ContinuousSelect.HarmfulMoveSpoilsView | src/database.cpp:644-648 | An update that takes away the oid of a row that is shown and has nothing waiting makes the view wrong, in every state |
| ContinuousSelect.CurrentExactlyIfHarmless | src/database.cpp:216-333 | If the earlier disjuncts of the clause never hold (`RowLocal`): in every run the view is current after each step exactly if no update does that |
| ContinuousSelect.ViewIsCurrent | src/database.cpp:216-333 | With such a clause (`RowLocal`) and in each such run, a row without pending changes is in the view exactly if it exists and satisfies the clause; with the queue empty the view is the query |
| ContinuousSelect.PictureIsCurrent | src/database.cpp:248-333 | With such a clause (`RowLocal`) and in each run of quiet updates, what the client has been told is for each shown row with nothing pending the row as it is now, and with the queue empty exactly the rows of the query |
| ContinuousSelect.CheckedRowIsRow | src/database.cpp:216-234 | With such a clause the row that the check statement stands on, and that the handler is given, is the row of the oid it was asked for |
| ContinuousSelect.DispatchKeepsRows | src/database.cpp:260-333 | Each closure that runs tells the client what it does not know yet of its row |
| ContinuousSelect.MoveKeepsView | src/database.cpp:644-648 | With such a clause (`RowLocal`) and nothing waiting, an update that changes an oid leaves the view right exactly if the row was not in it |
| ContinuousSelect.PendingMoveKeepsView | src/database.cpp:644-648 | A closure that waits for the old oid takes it out of the view |
| ContinuousSelect.ServedExactly | src/database.cpp:227-333 | The view is current in every run that keeps oids exactly for the clauses whose earlier disjuncts never hold and those that every row satisfies |
| ContinuousSelect.ServedWithMovesExactly | src/database.cpp:227-333 | In every run with harmless changes of oids, exactly for the former |
| ContinuousSelect.StepKeepsCalls | src/database.cpp:260-309 | No closure fails the assertion or confuses the client, whatever the clause, as long as what is gone is not left over |
| ContinuousSelect.CallsAreWellFormed | src/database.cpp:260-309 | In every run in which no update takes away the oid of a row that is shown or has something waiting, the assertion of the insert listener holds, and the client, who is told of no row twice and of none to go that it does not have, has exactly the oids of the view; for every clause |
| ContinuousSelect.InsertPassesIfClean | src/database.cpp:248-275 | An insertion of a row that satisfies the clause passes the assertion exactly if nothing of that oid is left over |
| ContinuousSelect.SafeExactlyIfQuiet | src/database.cpp:260-274 | The assertion holds however a run is cut short and continued exactly if every update in it is quiet in that sense |
| ContinuousSelect.Selection.Scan | src/database.cpp:214-222 | The first scan fills the view and announces each row, so that the client has exactly the rows of the query |
| ContinuousSelect.Selection.OnPreupdate | src/database.cpp:624-659 | Changes of other databases and tables are ignored; the event carries the new oid, or the old one for a delete |
| ContinuousSelect.Selection.RunOne | src/database.cpp:252-331 | Each listener does what the specification of its step says |
| ContinuousSelect.Selection.MoveStatement | src/database.cpp:644-648 | The step of an update that changes an oid: only the new one is announced |
| ContinuousSelect.Selection.DrainDispatchQueue | src/runloop.cpp:593-602 | Draining the queue runs the closures in order; it makes a kept view the result of the query, keeps the calls well formed, and leaves the client with exactly the rows of the query |
| Ipv6Text.ReadsExactlyNotations | src/address.cpp:656-749 | Which texts are IPv6 addresses: a text is read as an address exactly if it is eight groups of hexadecimal digits with colons between them, or at most seven with a double colon, each group of any number of digits in either case and a value of 16 bits, and the address is those groups with zeros for the double colon |
| Ipv6Text.TextIsNotation | src/address.cpp:449-558 | What the printer writes outside the encapsulated branch is one of these ways to write the address |
| Ipv6Text.TextIsCanonical | src/address.cpp:541-556 | It has small letters, no zero in front of another digit of a group, and nothing but digits and colons, as section 4 of RFC 5952 asks for |
| Ipv6Text.HexIsCanonical | src/address.cpp:541-556 | A group is written in the only way that has these properties |
| Ipv6Text.FullExample | src/address.cpp:541-556 | An address that uses every digit |
| Ipv6Text.ShortExample | src/address.cpp:541-556 | An address with its run of zeros left out |
| Ipv6Text.EncapsulatedExample | src/address.cpp:533-539 | What the encapsulated form looks like: the bytes as characters, the highest one last |
| Ipv6Text.TextIsRead | src/address.cpp:656-749 | The text of every address, with the run of zeros left out, is read back as the address |
| Ipv6Text.EncapsulatedIsNotRead | src/address.cpp:533-539 | The form for encapsulated IPv4 addresses is never read back |
| Ipv6Text.EncapsulatedExactly | src/address.cpp:533-533 | Which addresses take that form: five zero words and then 0xffff, or six zero words and then another one |
| Ipv6Text.RoundTrip | src/address.cpp:449-749 | Reading undoes writing exactly when the address is not taken for an encapsulated one |
| Ipv6.FindRun | src/address.cpp:473-505 | The first of the longest runs of at least two zero words |
| Ipv6.Address.ToV6 | src/address.cpp:449-558 | What is written is the text of the address with that run left out, or the encapsulated form |
| Ipv6.Address.FromV6 | src/address.cpp:656-749 | The object changes exactly if the text is an address, and then to that address |
| Ipv6.OpenGap | src/address.cpp:729-738 | The in-place shift is right although source and destination overlap |
| Ipv6.WriteAndRead | src/address.cpp:449-749 | The round trip, as calls of the two methods |
| Ipv4.ReadsExactlyWhatIsWritten | src/address.cpp:600-640 | The reader accepts exactly the texts that the printer writes, each as the address it was written for |
| Ipv4.ExampleText | src/address.cpp:436-438 | An address that uses every digit is written as usual |
| Ipv4.Read | src/address.cpp:606-635 | The character loop is that reader |
| Ipv4.Address.FromV4 | src/address.cpp:600-640 | A text that is no address leaves the object alone |
| Ipv4.WriteAndRead | src/address.cpp:436-640 | Every IPv4 address is read back |
| JsonEvents.FeedTree | src/json.cpp:90-361 | At any depth, the events of a tree deliver it where it belongs and leave both stacks as they were |
| JsonEvents.FeedConcat | src/json.cpp:139-245 | Events fed in two parts are the events fed at once |
| JsonEvents.RebuiltIsSame | src/json.cpp:320-326 | A tree survives the writing of its blobs as strings exactly if it has none |
| JsonEvents.InflateOfDeflate | src/json.cpp:290-361 | No assertion fails, both stacks end empty, and the tree comes back exactly if it is blob-free and a container or null |
| JsonEvents.ExampleEvents | src/json.cpp:290-361 | The events of an array and of an object with their parts, in order |
| JsonEvents.SecondMemberIsDropped | src/json.cpp:99-104 | Of two members with the same name the first one stays |
| JsonEvents.ParserContext.On | src/json.cpp:139-245 | Each callback does what the step of the specification does |
| JsonEvents.RoundTrip | src/json.cpp:90-361 | The same, as a run of the callbacks |

## Left out

- ZlibStream.Decompress: one call with all input there is, `TINFL_FLAG_HAS_MORE_INPUT` set (without it the source goes
  on with zeros) and an output buffer that does not wrap; the coroutine states that resume a call, the refilling of the
  bit buffer and the two-literal fast path of lines 1562 to 1604 are not modelled.
- ZlibStream.AcceptsExactly: at the symbols 30 and 31 for distances, which no stream uses, the model stops (`Undefined`);
  the source copies what the output buffer held before. In front of a write behind the buffer it stops as well
  (`Overrun`). Up to 32 lengths of distance codes are taken as a stream's, as section 3.2.7 of RFC 1951 writes it.
- ZlibStream.Compress: the output buffer never runs full; `LzParser.Compressor.Compress` covers calls that it stops.
- The layout of `m_lz_code_buf`: its bytes are counted, so that it does not overflow, but tokens are kept as a sequence.
- LzParser.Compressor: positions are unbounded where the source lets `m_lookahead_pos` wrap at 2 to the 32; they are
  only used modulo 32768 and 65536.
- LzParser.Compressor.FindMatch: a reported match is genuine and inside its bounds; that it is the longest is not claimed,
  since the probes are limited and follow whatever the chains hold.
- LzParser.Compressor.Chain: what the hash chains hold is left open; nothing that is proved depends on it.
- `tdefl_compress_fast`, the unaligned-load variants, `mz_deflate` and `mz_inflate`: stream plumbing and pointer tricks
  around the same algorithms.
- MinimumRedundancy.CalculateMinimumRedundancy: the frequencies are an array of numbers; the symbols that ride along in
  the source's records are paired up again by `HuffmanOptimizer.SortedSymbols`.
- MatchCopy.CopyMatch: what overlapping words leave in a wrapping buffer smaller than the distance, where the bytes
  asked for are gone in any case.
- Crc.Agree: parameters are words of exactly the CRC's number of bits, so bits set above them in a polynomial are not
  modelled; neither is `crc_optimal::process_bytes` on its own.
- Hasher.Agree: each implementation is fed in two parts; `Update` and `Input` are stated for every call, so more parts
  follow from them.
- RollingSha1.Sha1.Update: reading from files is not modelled.
- ZipIndex.Archive.LinearScan: the default flags without a comment; parsing the central directory is file I/O.
- JsonDiffTheorems.PatchOfDiff: for documents with empty keys or keys with `~0` or `~1` in them only the sufficient half
  is stated; such a key can also come out right by accident (adding `~1` to an empty object works).
- JsonDocument.Document.Apply: only add, remove and replace, the operations that the differ emits; copy, move and test
  are not modelled, and floating-point NaN is not either.
- ContinuousSelect.ViewIsCurrent: SQLite itself is a table of rows with a clause that depends on the row; rollback and
  errors other than row and done are not modelled. The bitmap is a set.
- JsonEvents.InflateOfDeflate: yajl and rapidjson are left out, so texts of numbers and strings are; the text of a blob
  is a parameter.
- Ipv4.Address.FromV4: the reverse forms and the choice between IPv4 and IPv6 by the presence of a colon.
- Networking, processes, RPC, the archive writer and PNG output: wrappers over libraries, or easy members.
