# LZFSE, LZVN and the BOM store: a verified model

This project models two parts of the repository and proves what they are for.

**The codec** (`Libraries/lzfse`). Three layers, each with its inverse: finite state entropy coding on bit streams that are
written forwards and read backwards; compressed blocks with four interleaved literal streams, one stream of (literal length,
match length, distance) triples and a bit-packed header; and the two LZ front ends. The layers meet in one specification, the
function `StreamFormat.DecodeStream`, which says what a byte stream stands for. The encoder is proved to produce streams that
stand for its source, the decoder to compute what a stream stands for, with any destination size and across interruptions.
`LzfseBuffer.RoundTrip` puts both together. Because a format that both sides misread alike would survive every round trip, the formats
are also pinned from outside: both headers, the magic numbers, the symbol tables, the frequency code and the LZVN opcodes are stated
without the functions that read and write them.

**The BOM store** (`Libraries/libbom`, `Libraries/libcar`). One byte buffer holds header, index, variables and data, and every
mutation moves bytes and renumbers addresses. The abstract view is the datatype `BomLayout.Store` with its file `Image`; each
operation is proved to turn the file of one store into the file of another, and lemmas about stores say what that means for
readers. On top of it: a sorted leaf kept inside the moving buffer, and the memoised copy of a tree between two stores.

| layer | files |
|---|---|
| bits and bit streams | `Bits`, `BitStream`, `BitStack` (any values, flushes and refills) |
| entropy coding | `Fse` (theory), `FseCoder` (loops), `FseNormalize`, `SymbolTables` |
| blocks | `Lz77` (meaning of triples), `Payloads`, `FreqCode`, `BlockHeader`, `HeaderLayout` (packed header bit by bit), `PlainHeader` (plain header field by field), `BlockFormat` (round trip), `BlockEncoder` (loops) |
| streams | `StreamFormat` (specification), `LzfseEncoder`, `LzfseDecoder`, `WideCopy`, `LzfseBuffer` |
| LZVN | `LzvnFormat` (specification), `LzvnOpcodes` (dispatch table and bits of every instruction), `LzvnEmit`, `Matching`, `LzvnEncoder`, `LzvnDecoder` |
| BOM | `BomFormat` (bytes), `BomLayout` (stores), `BomStore` (operations), `BomTree`, `BomCloner` |

Objects that the C and C++ code updates in place are classes; their methods are proved against functions on values. A pointer
into the source is an offset; `dst` of an encoder is the sequence written so far, with the capacity beside it. Hash functions are
the ones of the source, but nothing depends on them. Memory that C leaves uninitialised has arbitrary contents here.

Where the code differs from what one would expect, the code is followed and the exact condition is proved:

- `bom_index_append` does what it is for exactly when the block is not empty or nothing is appended (`BomLayout.AppendGrowsInPlace`);
  otherwise its index leads outside the file (`BomLayout.AppendedRead`, `BomStore.AppendToEmpty`).
- `bom_free_indices_add` keeps the layout exactly when the count is 1 or the slots were reserved (`BomStore.Context.FreeIndicesAdd`;
  `BomStore.FreeTwoIndices` is a witness that it can fail).
- The growth test of `bom_tree_add` leaves the 12-byte node header out and never fires for a leaf whose entries fit. The insertion
  stays inside the leaf exactly when one more entry fits behind the header (`BomTree.InsertStaysInside`); otherwise the block that
  follows loses its first bytes (`BomTree.Tree.Add`, `BomTree.OverrunRead`). In a tree built by the operations alone this is the
  511th pair, and the block is the tree header (`BomTree.OverwriteHeader`).
- The cloner copies exactly what its walk reaches. A backward link is rewritten exactly when it is not 0 and the walk reaches its target
  (`BomCloner.TreeGraphCloner.CloneTreeVariable`; `BomCloner.CloneSecondLeaf` is a witness of a link that is kept). A doubly linked chain stays
  one exactly when its first leaf has an index other than 0, is the only one, or is the root and the destination had no blocks; a chain
  ends where it ended exactly when its last link is 0 or not below the number of blocks of the finished copy (`BomCloner.CloneTree`,
  with `BomCloner.CloneLowLinks` as a witness that both can fail).

Main results, hardest first: the end-to-end round trip (`LzfseBuffer.RoundTrip`, `EncodeBuffer`); decoding with any destination
and across interruptions (`LzfseDecoder.DecoderState.Decode`, `LzfseBuffer.DecodeInTwoCalls`, `LzvnDecoder.DecodeInTwoCalls`); the
block round trip (`BlockFormat.BlockRoundTrip`); the parse invariant and roll-back of the LZFSE encoder
(`LzfseEncoder.EncoderState.EncodeBase`, `EncodeMatches`, `PushMatch`); the LZVN round trip (`LzvnEncoder.EncodeBuffer`); the promise to compress (`LzfseBuffer.EncodeBuffer`: with a
linear capacity a bvx2 stream from 4096 bytes on, and few bytes for a source that repeats one byte, on both routes); the tANS
inverse on whole strings (`Fse.StringRoundTrip`) and normalisation (`FseNormalize.NormalizeFreq`); the mutations of the BOM store
(`BomStore.Context.IndexAdd`, `VariableAdd`, `RelocateTrailer`); the sorted tree, iteration included (`BomTree.BuildAndIterate`);
and the cloner (`BomCloner.CloneTree`, `CloneAndIterate`).

## Model

| member | source | states |
|---|---|---|
| LzfseBuffer.RoundTrip | Libraries/lzfse/src/lzfse_encode.c:33-141 | For every source shorter than 2^31 - 1 bytes and every capacity of at least its size plus 12, the encoder returns 0 < n <= capacity bytes, and decoding them into a buffer of at least the source size writes exactly the source, whichever route (raw, LZVN, LZFSE) was taken |
| LzfseBuffer.EncodeBuffer | Libraries/lzfse/src/lzfse_encode.c:123-141 | For any source and capacity: whatever is returned fits and decodes to the source, the stream ending with the last byte returned; nothing is returned only when the source is 2 GiB or more, or does not fit with 12 spare bytes. Which stream it is: the LZVN one for 8 to 4095 bytes exactly if code was found and is shorter than the source; from 4096 bytes on a bvx2 stream whenever the capacity is at least 4n + 800; the raw one only otherwise. A source that repeats one byte needs only 2400 + n / 160 bytes of capacity on the LZFSE route, and shrinks to 39 + 2 * ceil(n / 271) bytes on the LZVN route |
| LzfseBuffer.EncodeLzfse | Libraries/lzfse/src/lzfse_encode.c:70-121 | The LZFSE route, with chunks of 262144 bytes and translation for sources of 4 GiB and more: on success the output starts with a bvx2 block and decodes to the whole source, up to its last byte; it succeeds whenever the capacity is at least 4n + 800; n times one byte succeeds with 2400 + n / 160 bytes, and takes no more, as long as the signed 32-bit distance test does not wrap |
| LzfseBuffer.DecodeBuffer | Libraries/lzfse/src/lzfse_decode.c:29-50 | The count returned for every stream but those with an LZVN block that is damaged or cut off in its payload: all of it, the full destination with a prefix of the meaning, or 0 for a damaged or cut-off stream; nothing past the capacity is written |
| LzfseBuffer.DecodeInTwoCalls | Libraries/lzfse/src/lzfse_decode_base.c:298-315 | Stopping at a full destination anywhere outside an LZVN block and calling again with a larger one ends as a single call with the larger destination: same bytes, status and, for a finished stream, source position; resumption is refused for nothing else |
| LzfseBuffer.RawDecodes | Libraries/lzfse/src/lzfse_encode.c:126-136 | The raw stream decodes to the source |
| LzfseBuffer.LzvnDecodes | Libraries/lzfse/src/lzfse_encode.c:57-67 | An LZVN program that yields the source, framed by header and end marker, decodes to the source |
| BitStream.PopPush | Libraries/lzfse/src/lzfse_fse.h:262-273 | The bit stream is a stack: a pull of the width last pushed returns the number and uncovers what was below |
| BitStream.InitBitsOfPacked | Libraries/lzfse/src/lzfse_fse.h:300-327 | Reading backwards from the end of a finished payload sees exactly the bits pushed, on top of the bits of the bytes before it, whatever the padding |
| BitStream.OutStream.PushBits | Libraries/lzfse/src/lzfse_fse.h:262-273 | Pushes on the abstract stack; the 64-bit accumulator never overflows |
| BitStream.OutStream.Flush | Libraries/lzfse/src/lzfse_fse.h:181-200 | Moves whole bytes to the buffer without changing the stack; 0 to 7 bits are left |
| BitStream.OutStream.Finish | Libraries/lzfse/src/lzfse_fse.h:223-241 | The buffer holds the packed stack, and accum_nbits is minus the padding |
| BitStream.InStream.Init | Libraries/lzfse/src/lzfse_fse.h:300-327 | Succeeds exactly when the padding is zero and enough bytes precede the end, never reading below the buffer start; the stack is then what was packed |
| BitStream.InStream.Flush | Libraries/lzfse/src/lzfse_fse.h:361-379 | Succeeds exactly when 56 bits are left above the start of the buffer, keeps the stack, and fills the accumulator to at least 56 bits |
| BitStack.WriteAndRead | Libraries/lzfse/src/lzfse_fse.h:181-414 | Any list of values of any widths, written with any flushes behind at least 8 bytes and read backwards with any refills, comes back in full, and the reading stream is left with exactly the bits in front, as long as at most 56 bits lie between two flushes or refills |
| BitStream.InStream.Pull | Libraries/lzfse/src/lzfse_fse.h:407-414 | Returns the top of the stack and pops it |
| Fse.StepRange | Libraries/lzfse/src/lzfse_fse.c:31-53 | The encoder shift brings every state into [f, 2f), so each symbol reaches only its own f states |
| Fse.StepInverse | Libraries/lzfse/src/lzfse_fse.c:57-100 | The decoder entry of the state reached by encoding names the symbol and gives back the old state from the bits pushed |
| Fse.SymbolRoundTrip | Libraries/lzfse/src/lzfse_fse.h:495-536 | For every frequency table of any size that sums to a power of two: encoding a symbol stays inside the states, pushes at most log2(nstates) bits, and decoding returns the symbol, the old state and the old stack; the table is valid for the decoder of the program whenever it keeps to 1024 states and 256 symbols |
| Fse.ValueRoundTrip | Libraries/lzfse/src/lzfse_fse.h:539-549 | The same for a value coded as a symbol with extra bits, with tables of any size, and for the decoder of the program within its bounds |
| Fse.StringRoundTrip | Libraries/lzfse/src/lzfse_fse.h:495-536 | Any string of symbols, over any frequency table that sums to a power of two, encoded from its last symbol to its first, is decoded in order, and leaves the first state and the first stack |
| Fse.ValuesRoundTrip | Libraries/lzfse/src/lzfse_fse.h:539-549 | The same for any string of values, each a base value plus any extra bits that fit |
| Fse.DecoderTableIsOk | Libraries/lzfse/src/lzfse_fse.c:57-100 | Every entry of a full decoder table leads to a state inside the table, whatever bits are read |
| FseCoder.EncoderEntryRange | Libraries/lzfse/src/lzfse_fse.c:31-53 | All four fields of an encoder entry fit 16 bits, so the stores do not wrap |
| FseCoder.InitEncoderTable | Libraries/lzfse/src/lzfse_fse.c:31-53 | The table in memory is the encoder table of the frequencies; entries of absent symbols are not touched |
| FseCoder.InitDecoderTable | Libraries/lzfse/src/lzfse_fse.c:57-100 | Fails exactly when the frequencies ask for more than nstates states; otherwise the table in memory is the decoder table of the frequencies, and entries behind their sum keep their values |
| FseCoder.InitValueDecoderTable | Libraries/lzfse/src/lzfse_fse.c:109-147 | The same for the table with extra bits and base values |
| FseCoder.Encode | Libraries/lzfse/src/lzfse_fse.h:495-508 | The 16-bit wrapping arithmetic computes the abstract encoding step, growing the accumulator by at most log2(nstates) bits |
| FseCoder.Decode | Libraries/lzfse/src/lzfse_fse.h:522-536 | The abstract decoding step on the accumulator, for any valid table |
| FseCoder.ValueDecode | Libraries/lzfse/src/lzfse_fse.h:539-549 | The abstract value decoding step on the accumulator, for any valid table |
| FseNormalize.AdjustFreqs | Libraries/lzfse/src/lzfse_fse.c:150-162 | The exact result: the passes with shift 3, 2, 1, 0 each take (f - 1) >> shift from every frequency above 1, symbol by symbol, until exactly the overrun is taken away, and stop there; no frequency becomes zero |
| FseNormalize.RescaleCounts | Libraries/lzfse/src/lzfse_fse.c:167-199 | Rounds every count as unbounded arithmetic would, although sum and products are taken in 32 bits, and finds the first of the most frequent symbols |
| FseNormalize.RoundedNearest | Libraries/lzfse/src/lzfse_fse.c:183-193 | For a power of two of states the shifts round count * step * nstates / 2^31 to nearest, halves upwards, and an occurring symbol below one half gets 1 |
| FseNormalize.StepIsQuotient | Libraries/lzfse/src/lzfse_fse.c:173-181 | The step is the largest number whose product with the total is at most 2^31 |
| FseNormalize.NormalizeFreq | Libraries/lzfse/src/lzfse_fse.c:167-216 | For every histogram with a total below 2^32 and no more symbols than states: the frequencies sum to exactly nstates, and every occurring symbol has a nonzero one; they are the rounded ones, with what is left over or a small overrun settled by the first most frequent symbol, and a large overrun by the passes |
| SymbolTables.LSplits | Libraries/lzfse/src/lzfse_encode_tables.h:29-49 | A literal length up to 315 is the base value of a symbol plus extra bits of its width for exactly one symbol, the one the encoder looks up |
| SymbolTables.MSplits | Libraries/lzfse/src/lzfse_encode_tables.h:51-186 | The same for every match length up to 2359 |
| SymbolTables.DSplits | Libraries/lzfse/src/lzfse_encode_tables.h:188-216 | The same for every distance up to 262139, through the four rows of the symbol table |
| SymbolTables.TablesTile | Libraries/lzfse/src/lzfse_internal.h:587-614 | In each of the three alphabets the ranges of the symbols tile the values without gap or overlap, from 0 to 316, 2360 and 262140: the widths of the extra bits are exact |
| Payloads.AlphabetsOk | Libraries/lzfse/src/lzfse_encode_base.c:337-366 | The 14, 17 and 23 bits budgeted for L, M and D cover every symbol with its extra bits, and together fit one refill |
| Payloads.LitsRoundTrip | Libraries/lzfse/src/lzfse_decode_base.c:440-484 | The four interleaved literal streams, encoded from the last group to the first, decode forwards to the literals, above whatever precedes the payload |
| Payloads.LmdRoundTrip | Libraries/lzfse/src/lzfse_decode_base.c:190-215 | Decoding one triple from one refill undoes its encoding and restores all three states and the stack |
| FreqCode.DecodeEncodeValue | Libraries/lzfse/src/lzfse_decode_base.c:28-51 | The code for frequencies is prefix free: whatever bits follow a code word, its value and length are found |
| FreqCode.CodeWords | Libraries/lzfse/src/lzfse_encode_base.c:67-110 | Which word stands for which value: the words of one length increase with the value, and the lengths are 2, 3, 5, 8 and 14 bits for values below 2, 4, 8, 24 and 1048 |
| FreqCode.FreqsRoundTrip | Libraries/lzfse/src/lzfse_decode_base.c:105-145 | A list of frequencies can be read back in front of anything, and exactly its bits are consumed |
| FreqCode.TableRoundTrip | Libraries/lzfse/src/lzfse_encode_base.c:114-154 | Packed into bytes, a list of frequencies passes the test for fewer than 8 left-over bits and is restored |
| FreqCode.EncodeFreqTable | Libraries/lzfse/src/lzfse_encode_base.c:114-154 | The loop on the 32-bit accumulator writes the packed code words |
| FreqCode.DecodeFreqTable | Libraries/lzfse/src/lzfse_decode_base.c:105-145 | The loop that refills a 32-bit accumulator byte by byte parses the whole table as one bit string, across all refills, and succeeds exactly when that does |
| BlockHeader.V2RoundTrip | Libraries/lzfse/src/lzfse_decode_base.c:72-145 | Every header whose fields fit their widths survives packing: all fields, all 360 frequencies, and the header size, at most 662 bytes |
| HeaderLayout.V2Layout | Libraries/lzfse/src/lzfse_internal.h:332-372 | The fixed part of a packed header is the fields of the structure, bit by bit in their order and with their widths, unused bits zero |
| HeaderLayout.MagicWords | Libraries/lzfse/src/lzfse_internal.h:277-281 | The five magic numbers read bvx followed by $, -, 1, 2 or n in a stream |
| PlainHeader.V1RoundTrip | Libraries/lzfse/src/lzfse_internal.h:292-330 | A plain header written field by field in the order of the structure, for every header whose fields fit, is 772 bytes long and read back whole, whatever follows |
| PlainHeader.PlainBlockRoundTrip | Libraries/lzfse/src/lzfse_decode_base.c:376-402 | Wherever a block with such a plain header in front of the payloads stands in a stream, decoding appends exactly the expansion of its triples and goes on behind it |
| PlainHeader.PlainHeaderChecked | Libraries/lzfse/src/lzfse_internal.h:506-567 | What becomes of every plain header: cut off if its payloads are not complete, accepted if every field and every table sum keeps its limit, rejected otherwise |
| Lz77.CopyMatchAt | Libraries/lzfse/src/lzfse_decode_base.c:239-241 | Every byte a match produces equals the one D before it |
| Lz77.CopyMatchRepeat | Libraries/lzfse/src/lzfse_encode_base.c:689-704 | Copying at the distance of a repeat reproduces the source |
| Lz77.ExpandLength | Libraries/lzfse/src/lzfse_encode_base.c:212-230 | Expanding triples appends as many bytes as their literal and match lengths add up to |
| Lz77.ResolveDelta | Libraries/lzfse/src/lzfse_encode_base.c:198-206 | Resolving zeros to the previous distance gives back the triples before the rewriting |
| BlockFormat.HeaderFits | Libraries/lzfse/src/lzfse_internal.h:506-567 | The payload sizes reached by a full block fit their 20-bit fields, and the header passes the sanity check of the decoder |
| BlockFormat.RawBytesAnnounced | Libraries/lzfse/src/lzfse_encode_base.c:212-230 | The header of a block announces exactly the number of bytes that decoding it appends |
| BlockFormat.RunEncodedLmds | Libraries/lzfse/src/lzfse_decode_base.c:190-242 | Decoding the encoded triples one by one and executing them is the LZ77 expansion of the triples with their distances resolved |
| BlockFormat.StartEncodedBlock | Libraries/lzfse/src/lzfse_decode_base.c:422-508 | From the header of an encoded block the decoder sets up the tables, the literals and the final states of the encoder |
| BlockFormat.BlockRoundTrip | Libraries/lzfse/src/lzfse_encode_base.c:171-419 | Wherever an encoded block stands in a stream, decoding appends exactly the expansion of its triples and goes on behind it |
| StreamFormat.StreamExtends | Libraries/lzfse/src/lzfse_decode_base.c:332-630 | Decoding never alters what was already produced: the outcome of every stream starts with it |
| BlockEncoder.ResolveDeltaSeq | Libraries/lzfse/src/lzfse_encode_base.c:399-407 | Undoing the rewriting of distances is an exact inverse when every distance is at least 1 |
| BlockEncoder.DeltaInPlace | Libraries/lzfse/src/lzfse_encode_base.c:198-206 | The first loop rewrites the array as the function does, and touches no other entry |
| BlockEncoder.ResolveInPlace | Libraries/lzfse/src/lzfse_encode_base.c:399-407 | The undoing loop, likewise |
| BlockEncoder.StreamFreqs | Libraries/lzfse/src/lzfse_encode_base.c:208-253 | Counting and normalising gives a full frequency table in which everything that occurs can be coded |
| BlockEncoder.BlockSize | Libraries/lzfse/src/lzfse_encode_base.c:255-393 | Every block starts with the bvx2 magic and takes at most 752 bytes, 5 bytes for every four literals and 7 for every triple |
| BlockEncoder.EncodeLiteralPayload | Libraries/lzfse/src/lzfse_encode_base.c:269-308 | The loop writes the literal payload of the abstract encoder, stays inside the capacity, and fails only when the bound of 5 bytes a group plus 16 exceeds it |
| BlockEncoder.EncodeLmdPayload | Libraries/lzfse/src/lzfse_encode_base.c:310-380 | The same for the triples, with a bound of 7 bytes a triple plus 16 |
| BlockEncoder.BuildBlock | Libraries/lzfse/src/lzfse_encode_base.c:208-393 | Counts, tables, payloads and header together are the abstract block, inside the capacity; failure means that the bound on its size exceeds the capacity |
| LzfseEncoder.EncoderState.EncodeMatches | Libraries/lzfse/src/lzfse_encode_base.c:171-419 | Success: the output still decodes to all that was flushed, now with the collected triples, and has grown by at most the bound on the block. Failure: counts, literals, triples, dst and src_literal are as before, and the destination is too small |
| LzfseEncoder.EncoderState.PushLmd | Libraries/lzfse/src/lzfse_encode_base.c:425-464 | A collected triple extends the expansion to the new src_literal; refused only when a table is full |
| LzfseEncoder.EncoderState.PushLongLiterals | Libraries/lzfse/src/lzfse_encode_base.c:482-489 | Pieces of 315 literals keep the expansion and leave at most 315, unless a table is full; the pieces and what is left need as many triples as the whole |
| LzfseEncoder.EncoderState.PushLongMatch | Libraries/lzfse/src/lzfse_encode_base.c:491-499 | Pieces of 2359 match bytes keep the expansion, what is left is still a true repeat, and pieces and rest need as many triples as the whole |
| LzfseEncoder.EncoderState.PushMatch | Libraries/lzfse/src/lzfse_encode_base.c:470-523 | All of a match is collected, in exactly as many triples as splitting takes, if and only if the tables have room for these triples and its literals; a refusal restores counts, literals and triples |
| LzfseEncoder.EncoderState.BackendMatch | Libraries/lzfse/src/lzfse_encode_base.c:530-542 | Under the backlog bound the second push always fits: failure can only mean that the destination is full, and changes nothing. The output stays at most four times what it stands for, and the load (output, and what the collected triples take) grows by at most 763 + n / 337 + 3L bytes for n bytes of source with L literals |
| LzfseEncoder.EncoderState.BackendLiterals | Libraries/lzfse/src/lzfse_encode_base.c:549-557 | The same for literals alone |
| LzfseEncoder.EncoderState.BackendEndOfStream | Libraries/lzfse/src/lzfse_encode_base.c:564-577 | The finished stream fits, starts with a bvx2 block and decodes to the source up to src_literal; failure means a capacity below 4n + 800, and below the load plus 760 |
| LzfseEncoder.EncoderState.constructor | Libraries/lzfse/src/lzfse_encode_base.c:590-604 | The initial state satisfies every invariant of the front end |
| LzfseEncoder.EncoderState.ForwardLength | Libraries/lzfse/src/lzfse_encode_base.c:689-704 | At least 4 bytes agree, no read passes the end of the source, and before the last 8 bytes of it not one byte more agrees |
| LzfseEncoder.EncoderState.Search | Libraries/lzfse/src/lzfse_encode_base.c:677-709 | Any match found is a true repeat of at least 4 bytes that ends inside the source, none of the four remembered positions would give a longer one, and nothing is returned only when none of them matches |
| LzfseEncoder.EncoderState.ExpandBackwards | Libraries/lzfse/src/lzfse_encode_base.c:747-754 | The expanded match is a true repeat with the same distance and end, does not start before src_literal, and cannot be expanded further |
| LzfseEncoder.EncoderState.CatchUp | Libraries/lzfse/src/lzfse_encode_base.c:711-739 | Keeps the parse correct and the backlog pos - src_literal at most 8 * 315 + 2, by sending out the pending match or 315 literals exactly when more than 8 * 315 have gathered, at the cost of at most one match |
| LzfseEncoder.EncoderState.Filter | Libraries/lzfse/src/lzfse_encode_base.c:756-796 | A good match goes out at once, two without overlap in order, of two that overlap the longer; in every case the parse stays correct, the pending match is a true repeat from src_literal on, and the backlog is bounded |
| LzfseEncoder.EncoderState.SearchStep | Libraries/lzfse/src/lzfse_encode_base.c:669-796 | One position: the longest of the candidates, cut to 235900 bytes and expanded backwards as far as possible, is what the filter decides about; without a candidate the backlog is served |
| LzfseEncoder.EncoderState.EncodeBase | Libraries/lzfse/src/lzfse_encode_base.c:643-806 | Keeps the whole front-end invariant at every position and visits all of them up to 8 bytes before the end; failure means a capacity below 4n + 800. On a source that repeats one byte every match is as long as it may be, so that the load stays below 2400 + n / 160 |
| LzfseEncoder.EncoderState.Translate | Libraries/lzfse/src/lzfse_encode_base.c:609-638 | Every offset keeps denoting the same byte of the source, and the front-end invariant survives, clamped history entries included |
| LzfseEncoder.EncoderState.EncodeFinish | Libraries/lzfse/src/lzfse_encode_base.c:808-830 | On success the destination decodes to the whole source and starts with a bvx2 block; failure means a capacity below 4n + 800. A source that repeats one byte takes, and needs, at most 2400 + n / 160 bytes |
| LzfseEncoder.CandidateMatches | Libraries/lzfse/src/lzfse_encode_base.c:680-687 | A remembered word that equals the current one and is not too far is a true earlier occurrence; entries at the initial position are always too far |
| LzfseEncoder.StoredPush | Libraries/lzfse/src/lzfse_encode_base.c:425-464 | Appending a triple and its literals extends the expansion by just those literals and that match |
| LzfseDecoder.DecoderState.FastCopy | Libraries/lzfse/src/lzfse_decode_base.c:224-243 | The wide copies of a triple that ends 32 bytes before the end give the bytes of the byte-by-byte meaning, and write nothing at or past dst_end |
| LzfseDecoder.DecoderState.SlowLiterals | Libraries/lzfse/src/lzfse_decode_base.c:255-274 | Copies the literals that fit; what is left is saved |
| LzfseDecoder.DecoderState.SlowMatch | Libraries/lzfse/src/lzfse_decode_base.c:279-297 | Copies the part of the match that fits; what is left is saved |
| LzfseDecoder.DecoderState.ExecuteTriple | Libraries/lzfse/src/lzfse_decode_base.c:217-323 | Executes a triple completely, or stops with the saved rest leading to the same outcome of the block |
| LzfseDecoder.DecoderState.DecodeLmds | Libraries/lzfse/src/lzfse_decode_base.c:156-330 | From a fresh or a resumed state: the outcome of the rest of the block, or a full destination from which it can still be reached |
| LzfseDecoder.DecoderState.ReadBlockHeader | Libraries/lzfse/src/lzfse_decode_base.c:376-417 | Reads a packed or plain header as specified, with the order of the truncation and sanity checks; what the specification reads is pinned by the layouts of both headers |
| LzfseDecoder.DecoderState.InitTables | Libraries/lzfse/src/lzfse_decode_base.c:427-438 | The four tables stay valid whatever the frequencies, and are the ones of the encoder when these are full |
| LzfseDecoder.DecoderState.DecodeLiterals | Libraries/lzfse/src/lzfse_decode_base.c:440-484 | The loop over groups of four decodes the literal payload as specified |
| LzfseDecoder.DecoderState.OpenBlock | Libraries/lzfse/src/lzfse_decode_base.c:419-510 | Tables, literals and the stream of triples are those the specification sets up, or the block is rejected |
| LzfseDecoder.DecoderState.BeginBlock | Libraries/lzfse/src/lzfse_decode_base.c:336-516 | The next magic number leads to the block, the end or the error the specification names |
| LzfseDecoder.DecoderState.RawBlock | Libraries/lzfse/src/lzfse_decode_base.c:518-551 | Copies what source and destination allow, keeping the outcome reachable |
| LzfseDecoder.DecoderState.LmdBlock | Libraries/lzfse/src/lzfse_decode_base.c:553-569 | Runs a compressed block to its end, or stops with the outcome still reachable |
| LzfseDecoder.DecoderState.LzvnBlock | Libraries/lzfse/src/lzfse_decode_base.c:571-620 | Runs an LZVN block inside its two sizes: done, damaged, or a full destination holding the first bytes of the outcome |
| LzfseDecoder.DecoderState.Decode | Libraries/lzfse/src/lzfse_decode_base.c:332-630 | From any valid state, fresh or resumed: the status and the bytes of the specified outcome if it fits; otherwise the destination is full of its first bytes and, outside LZVN blocks, the state still leads to it |
| LzfseDecoder.DecoderState.GrowDestination | Libraries/lzfse/src/lzfse_decode_base.c:300-315 | More room keeps the state on its way to the same outcome |
| WideCopy.CopyLiteral8 | Libraries/lzfse/src/lzfse_decode_base.c:147-154 | The eight-byte loop, in its while and its do-while form, copies the wanted bytes, keeps all earlier ones and overshoots by less than 8 |
| WideCopy.CopyMatch8 | Libraries/lzfse/src/lzvn_decode_base.c:445-452 | For D >= 8 the eight-byte loop equals out[i] = out[i - D], overlap included |
| WideCopy.CopyMatchOnce | Libraries/lzfse/src/lzfse_decode_base.c:237-238 | A single eight-byte copy is right for M <= D < 8 |
| WideCopy.CopyMatchSlow | Libraries/lzfse/src/lzfse_decode_base.c:280-281 | The byte loop equals out[i] = out[i - D] |
| WideCopy.CopyMatchChunk | Libraries/lzfse/src/lzfse_decode_base.c:232-238 | Up to D bytes of a match are a plain copy of what lies D before |
| WideCopy.CopyLiteral16 | Libraries/lzfse/src/lzfse_internal.h:463-468 | The sixteen-byte loop copies the wanted bytes, keeps all earlier ones and writes at most 16 more |
| LzvnFormat.RunsConcat | Libraries/lzfse/src/lzvn_decode_base.c:110-117 | Pieces of code compose: the effect of two pieces in a row is that of the second on the result of the first, for output and for D |
| LzvnFormat.ExecuteSplitLiteral | Libraries/lzfse/src/lzvn_decode_base.c:410-423 | Literals may be copied in two parts |
| LzvnFormat.ExecuteSplitMatch | Libraries/lzfse/src/lzvn_decode_base.c:459-472 | A match may be copied in two parts |
| LzvnEmit.LiteralRuns | Libraries/lzfse/src/lzvn_encode_base.c:66-81 | A literal opcode, short or long, appends exactly its literals and keeps D |
| LzvnEmit.MatchRuns | Libraries/lzfse/src/lzvn_encode_base.c:161-174 | A match opcode, short or long, appends exactly the match at the current D |
| LzvnEmit.PairParses | Libraries/lzfse/src/lzvn_encode_base.c:129-149 | Opcodes for previous, short and long distance fall in the class meant, never in a reserved row, with the operands meant |
| LzvnEmit.MediumParses | Libraries/lzfse/src/lzvn_encode_base.c:150-159 | The same for the medium distance |
| LzvnOpcodes.OpcodeTable | Libraries/lzfse/src/lzvn_decode_base.c:50-83 | The class of each of the 256 opcodes, against the dispatch table row by row |
| LzvnOpcodes.InstructionLayout | Libraries/lzfse/src/lzvn_decode_base.c:129-645 | Every instruction read is, bit by bit, the fields of its kind: lengths and distance at their places and with their offsets 3 and 16, and no other operands |
| LzvnEncoder.EmitLiteral | Libraries/lzfse/src/lzvn_encode_base.c:62-86 | The code emitted appends exactly the L literals and keeps D; it is refused only within 10 bytes of a full output |
| LzvnEncoder.Emit | Libraries/lzfse/src/lzvn_encode_base.c:95-180 | For L literals and a match (M, D): the decoder appends those literals and that match, and its D is then the D of the encoder; at most two bytes of code for each byte of source |
| LzvnEncoder.FindMatchN | Libraries/lzfse/src/lzvn_encode_base.c:266-302 | Succeeds exactly when at least 3 bytes match at a distance in range, and finds a true repeat that starts at or behind the first literal, cannot be expanded backwards, and not forwards either but for the last 4 bytes of the source |
| LzvnEncoder.FindMatch | Libraries/lzfse/src/lzvn_encode_base.c:226-262 | Succeeds exactly when at least 3 of the first 4 bytes match at a distance in range, with a repeat that is maximal in the same sense |
| LzvnEncoder.CandidateMatches | Libraries/lzfse/src/lzvn_encode_base.c:444-464 | Equal low bytes of a remembered word are equal bytes of the source |
| LzvnEncoder.EncoderState.EmitMatch | Libraries/lzfse/src/lzvn_encode_base.c:310-329 | The code so far still yields the source up to src_literal, now the end of the match, with D equal to d_prev, and grows by at most the size of the literals and the match; unchanged when the output is full |
| LzvnEncoder.EncoderState.EmitLiterals | Libraries/lzfse/src/lzvn_encode_base.c:334-348 | The same for literals |
| LzvnEncoder.EncoderState.BestCandidate | Libraries/lzfse/src/lzvn_encode_base.c:442-475 | The candidate chosen among five is a true repeat that cannot go on but near the end of the source, and there is one whenever a remembered word matches at a distance in range |
| LzvnEncoder.EncoderState.Step | Libraries/lzfse/src/lzvn_encode_base.c:479-518 | The code yields the source up to src_literal and the pending match is a true repeat, whichever of the two goes out: in order when they do not overlap, otherwise the one with the larger gain |
| LzvnEncoder.EncoderState.Visit | Libraries/lzfse/src/lzvn_encode_base.c:436-518 | One position: on a source that repeats one byte a match that reaches the end is found at position 1 and goes out at position 2 |
| LzvnEncoder.EncoderState.Encode | Libraries/lzfse/src/lzvn_encode_base.c:383-529 | The invariant at every position, history table included; on return every position was visited, or the destination may have no room for the rest. A source that repeats one byte becomes one match |
| LzvnEncoder.EncodeBuffer | Libraries/lzfse/src/lzvn_encode_base.c:536-593 | Whenever code is returned, running it reaches the end of stream with exactly the source; it is returned whenever the capacity exceeds twice the source plus 18. For n times one byte it has at most 23 + 2 * ceil(n / 271) bytes |
| Matching.CommonLowOfBytes | Libraries/lzfse/src/lzvn_encode_base.c:201-205 | The trailing zero bytes of the XOR of two words count exactly the equal leading bytes |
| Matching.RepeatCopies | Libraries/lzfse/src/lzvn_encode_base.c:235-262 | Copying a repeat reproduces the source up to its end |
| LzvnDecoder.DecoderState.CopyLiterals | Libraries/lzfse/src/lzvn_decode_base.c:393-423 | Wide or slow, the literals are right and earlier output is kept; when they do not fit, the saved L, M, D lead to the same outcome |
| LzvnDecoder.DecoderState.CopyMatchBytes | Libraries/lzfse/src/lzvn_decode_base.c:433-472 | The same for the match |
| LzvnDecoder.DecoderState.Instruction | Libraries/lzfse/src/lzvn_decode_base.c:110-477 | One opcode, every class: one step of the specified run, or stuck, finished or suspended; a match without a valid distance is stuck |
| LzvnDecoder.DecoderState.Decode | Libraries/lzfse/src/lzvn_decode_base.c:47-128 | A run that reaches its end is finished if it fits; otherwise the destination is full and the saved state leads to the same end |
| LzvnDecoder.DecodeInTwoCalls | Libraries/lzfse/src/lzvn_decode_base.c:96-108 | Stopping anywhere and going on with a larger destination ends as a single call |
| BomStore.Context.constructor | Libraries/libbom/Sources/bom.c:45-85 | A new store holds nothing, has two unused free-list entries, and is well formed |
| BomFormat.BEIsReversed | Libraries/libbom/Sources/bom.c:405-409 | A number is stored with its highest byte first: the mirror image of the little-endian one |
| BomStore.Context.AddressUpdateAll | Libraries/libbom/Sources/bom.c:244-267 | Every address of index, variables and blocks at or behind the point moves by delta, and nothing else changes |
| BomStore.Context.AddressResize | Libraries/libbom/Sources/bom.c:270-276 | Renumbers as above and opens a gap of uninitialised bytes at the point |
| BomStore.Context.IndexGet | Libraries/libbom/Sources/bom.c:306-330 | Finds the bytes of every index in use and nothing for any other |
| BomStore.Context.IndexReserve | Libraries/libbom/Sources/bom.c:333-369 | The store with more reserved slots |
| BomStore.Context.IndexAdd | Libraries/libbom/Sources/bom.c:372-419 | The index returned is the next one, and the file holds the store with the block added: slots, free list, variables and data as the layout says |
| BomLayout.AddedKeeps | Libraries/libbom/Sources/bom.c:372-419 | Adding a block changes the bytes of no earlier index, and no variable |
| BomLayout.BlocksCounted | Libraries/libbom/Sources/bom.c:412-416 | After any addition the header counts the blocks: block_count is the number of slots |
| BomLayout.FileHeader | Libraries/libbom/Sources/bom.c:45-85 | The first bytes of the file of any store: the magic, version 1, and the five words of the header at their offsets |
| BomStore.Context.IndexAppend | Libraries/libbom/Sources/bom.c:459-480 | The file after opening a gap behind a block |
| BomLayout.AppendGrowsInPlace | Libraries/libbom/Sources/bom.c:459-480 | Whatever the new bytes are, a block stays inside the data and holds its old bytes and the new ones, if and only if it was not empty or nothing is appended |
| BomLayout.EmptyStaysAtEnd | Libraries/libbom/Sources/bom.c:372-419 | In every store built by the operations empty blocks stand at the end of the data, as long as nothing is appended to one |
| BomLayout.AppendedRead | Libraries/libbom/Sources/bom.c:459-480 | What readers of the file find in such a store: a block that was not empty with the new bytes behind the old ones, an empty one not at all, and every other block unchanged |
| BomStore.AppendToEmpty | Libraries/libbom/Sources/bom.c:459-480 | A new store, an empty block added and one byte appended to it: its index then leads outside the file |
| BomLayout.AppendedKeeps | Libraries/libbom/Sources/bom.c:459-480 | For a block that grows in place: its bytes are the old ones and the gap, and every other index keeps its bytes |
| BomStore.Context.FreeIndicesAdd | Libraries/libbom/Sources/bom.c:422-456 | The store with that many empty slots when they were reserved or one is asked for; otherwise (more than one, not reserved) the file is no store at all |
| BomStore.FreeTwoIndices | Libraries/libbom/Sources/bom.c:422-456 | A witness: two free indices asked for in a new store leave a file that is no store |
| BomLayout.NoStore | Libraries/libbom/Sources/bom.c:433-439 | In every store the variables start where the index ends, which the growth for more than one free index violates |
| BomStore.Context.VariableGet | Libraries/libbom/Sources/bom.c:484-543 | The index of the first variable with the name, or -1 |
| BomLayout.CStringEnds | Libraries/libbom/Sources/bom.c:484-543 | The name that is compared is the longest part of the stored one in front of a zero byte |
| BomStore.Context.VariableAdd | Libraries/libbom/Sources/bom.c:546-581 | The file holds the store with the variable added |
| BomLayout.LookupAdded | Libraries/libbom/Sources/bom.c:546-581 | Adding a variable changes what no earlier name denotes; a new name denotes the new index |
| BomStore.Context.RelocateTrailer | Libraries/libbom/Sources/bom.c:153-240 | Without data nothing changes; with data the index moves to a 16-byte boundary at the end of the file. Readers see the same store |
| BomLayout.RelocatedShows | Libraries/libbom/Sources/bom.c:153-240 | In the relocated file every index denotes the same bytes, the variables are the same, the index offset is a multiple of 16, and the file ends where the index does |
| BomLayout.ImageShows | Libraries/libbom/Sources/bom.c:306-330 | The file of a well-formed store shows its blocks and variables to readers |
| BomTree.CompareIsLexicographic | Libraries/libbom/Sources/bom_tree.c:274-280 | memcmp of the common length with the length as tie-break is the lexicographic order of byte strings: at most 0 if and only if the first key is a prefix of the second or has the smaller byte where they first differ, and at least 0 if and only if the reverse holds |
| BomTree.CompareIsOrder | Libraries/libbom/Sources/bom_tree.c:274-280 | The comparison used for the order of a tree against that order, defined without it: a prefix, or the smaller byte at the first difference |
| BomTree.InsertedSorted | Libraries/libbom/Sources/bom_tree.c:256-313 | A key inserted between what is not greater and what is not smaller keeps the keys sorted |
| BomTree.NodeInsertedEntries | Libraries/libbom/Sources/bom_tree.c:315-325 | The shift, the write of the entry and the new count turn the leaf into the one with the entry inserted: entries before the place stay, those behind it move up by one |
| BomTree.Tree.FindPlace | Libraries/libbom/Sources/bom_tree.c:256-313 | The binary search finds a place with nothing greater in front and nothing smaller behind, for any key, in front of an equal key if there is one at all |
| BomTree.InsertedEntry | Libraries/libbom/Sources/bom_tree.c:315-325 | For a leaf with room the writes in the buffer give the file of a tree with the pair inserted there and the path count one higher; all other blocks keep their bytes |
| BomTree.InsertStaysInside | Libraries/libbom/Sources/bom_tree.c:246-253 | The test for growth never fires for a leaf whose entries fit; the insertion keeps the bytes behind the leaf, whatever they are, if and only if one more entry fits behind the 12-byte header |
| BomTree.OverrunRead | Libraries/libbom/Sources/bom_tree.c:315-325 | After an insertion into a leaf without room, the block that follows it starts with the tail of the last entry and keeps only its other bytes |
| BomTree.OverwriteHeader | Libraries/libbom/Sources/bom_tree.c:228-326 | A witness: a new tree takes any 510 pairs, its header still starting with the magic number; whatever the 511th pair is, the header then starts with something else |
| BomTree.Tree.Add | Libraries/libbom/Sources/bom_tree.c:228-326 | Two blocks are added and the buffer moves. With room the leaf is still sorted with just the new pair inserted; without room exactly the bytes behind the leaf that the last entry reaches are overwritten |
| BomTree.Tree.AddAll | Libraries/libbom/Sources/bom_tree.c:228-326 | After any sequence of additions inside the capacity the leaf is sorted and its pairs are a permutation of the old and new ones; the mark and the links of the leaf and all bytes of the header but the path count are kept, and the path count has gone up by the number of pairs |
| BomTree.Tree.Reserve | Libraries/libbom/Sources/bom_tree.c:215-225 | The leaf grows by 8 bytes an entry and keeps its pairs, its mark and its links; the header keeps its bytes |
| BomTree.Tree.Iterate | Libraries/libbom/Sources/bom_tree.c:174-212 | The items of all leaves of the chain, in order, through a redirecting node or not |
| BomTree.CreateTree | Libraries/libbom/Sources/bom_tree.c:58-122 | A leaf, a header and a variable are added, for any name; the header holds the magic, version 1, the length of the leaf at 12 and the path count 0 at 16. A tree without pairs, whose leaf is marked as one and links to nothing, is found by the name if it was not in use and has at most 255 bytes |
| BomTree.TreeShown | Libraries/libbom/Sources/bom_tree.c:174-212 | What iteration shows for a tree with one leaf is the sequence of its pairs; of two keys shown, the earlier is a prefix of the later or has the smaller byte where they first differ |
| BomTree.Tree.AddAllAndIterate | Libraries/libbom/Sources/bom_tree.c:174-326 | Any additions inside the capacity, then iteration: it shows a permutation of the old and new pairs, sorted by key, and the path count has gone up by the number of pairs added |
| BomTree.BuildAndIterate | Libraries/libbom/Sources/bom_tree.c:58-326 | From an empty store: create a tree, reserve room, add any pairs, iterate: it shows a permutation of exactly these pairs, sorted by key; the header then names a node size of 4096 and as many paths as there are pairs |
| BomCloner.TreeGraphCloner.CloneField | Libraries/libcar/Sources/VariablePassthrough.cpp:184-197 | A field that resolves in the source is mapped to a block with the same bytes; one that does not is carried through unchanged |
| BomCloner.TreeGraphCloner.CloneLeaf | Libraries/libcar/Sources/VariablePassthrough.cpp:180-216 | All entries and the forward link are rewritten to the copies; the backward link is, exactly if its target is memoised when the leaf is done |
| BomCloner.TreeGraphCloner.CloneEntry | Libraries/libcar/Sources/VariablePassthrough.cpp:147-224 | Ends for every graph, cycles included: each call memoises a new index, and only what the walk from the root reaches. The memo is injective and only grows, and every node memoised meanwhile is finished, its backward link the one that the memo asks for at the end of the call |
| BomCloner.TreeGraphCloner.CloneTreeVariable | Libraries/libcar/Sources/VariablePassthrough.cpp:97-112 | Exactly the blocks that the walk reaches are copied, each once: the nodes from the header on along redirections and forward links, and the keys and values of their leaves that resolve. Their links are rewritten; a backward link is if and only if it is not 0 and the walk reaches its target. Earlier blocks of the destination are kept, and the header leads to the copied child and has the name |
| BomCloner.AllReached | Libraries/libcar/Sources/VariablePassthrough.cpp:147-224 | A walk that is over has memoised a block if and only if it reaches it |
| BomCloner.AllRewritten | Libraries/libcar/Sources/VariablePassthrough.cpp:204-216 | A copied leaf links back to the copy of what its backward link names if that is not 0 and the walk reaches it, and to the same number as before in every other case |
| BomCloner.CloneSecondLeaf | Libraries/libcar/Sources/VariablePassthrough.cpp:204-216 | A witness: the header leads to the second leaf of a doubly linked pair; the copy of this leaf keeps the backward link 1, which in the copy is the tree header |
| BomCloner.ChainCloned | Libraries/libcar/Sources/VariablePassthrough.cpp:147-224 | The copies of the leaves of a finite chain are a chain in the same order and show the same items |
| BomCloner.CloneIteratesAlike | Libraries/libcar/Sources/VariablePassthrough.cpp:97-222 | The copied header leads to the copies of the leaves of any finite chain if and only if its last link is 0 or resolves to nothing in the copy either; iteration then shows as many items with the same bytes for every key and value that resolved |
| BomCloner.CloneLinksBackAlike | Libraries/libcar/Sources/VariablePassthrough.cpp:204-216 | The backward links of a doubly linked chain of leaves become those of the copied chain, if and only if the first leaf has an index other than 0, is the only one, or is the root and the destination had no blocks |
| BomCloner.CloneTree | Libraries/libcar/Sources/VariablePassthrough.cpp:97-224 | Cloning the tree a variable names, seen from outside: the destination grows by one block for every block the walk reaches and one for the header; the copied leaves are a chain under the name, showing the same items, if and only if the last link resolves to nothing there, and linked back if and only if the first leaf can be linked to |
| BomCloner.CloneLowLinks | Libraries/libcar/Sources/VariablePassthrough.cpp:97-224 | A witness: a doubly linked pair with indexes 0 and 1, the second with a forward link 3 that resolves to nothing; its copy is neither linked back nor a chain that ends |
| BomCloner.CloneAndIterate | Libraries/libcar/Sources/VariablePassthrough.cpp:97-112 | Cloning a named tree and iterating over source and copy yields the same sequence of value and key bytes, wherever they resolve in the source |

## Left out

- Writes of the encoders past the end of the emitted bytes (slop of wide stores, always overwritten later or inside the capacity): `dst` is a growing sequence with a capacity.
- Streams whose block uses table entries or literals left over from an earlier block, or whose literals run out: the outcome is `Undefined`; only memory safety and the bytes already produced are claimed.
- LzfseBuffer.DecodeBuffer: an LZVN block whose payload is cut off or damaged, or that announces 0 bytes, has the outcome `Undefined`, so the count is left open; the C code returns a full destination for a payload that is cut off.
- A first distance of -1, which the C code compares as an unsigned number: it is an error below 4 GiB of output and `Undefined` beyond.
- Bytes that the backward refill loads but masks off, and up to 8 bytes read behind the literal buffer by wide literal copies: the buffer of the model is that much longer.
- LzvnDecoder.DecoderState.Instruction: the match-only opcodes of the C code copy without testing the distance; before any distance was set they read the byte being written, and the model stops there.
- LzfseDecoder.DecoderState.LzvnBlock: `lzfse_decode` keeps only the previous distance of an interrupted LZVN block, not the rest of the instruction, so resuming there is not claimed; `lzvn_decode` itself can be resumed.
- The test that the triple payload is still in the source when a block is resumed: it always holds, since a block is opened only when it is complete.
- The decoder keeps L, M, D and the three states in its fields throughout, instead of copying them to locals and saving them on exit.
- The 32-bit variants of the bit streams, the choice between computed goto and switch, and the compiler shims.
- `delta1` of a symbol that owns all states (k = 0): computed with a negative shift and never used, so arbitrary here.
- `ctz` of an XOR is modelled as counting equal low bytes; the symbol and code-length tables are written as arithmetic.
- Allocation, scratch sizes, hash quality, and how well a source is compressed beyond what `LzfseBuffer.EncodeBuffer` states.
- Which words the history tables forget: every entry is proved true, but keeping fewer would only cost compression.
- The sum of a history position and the largest distance overflows a signed word in C for positions near 2 GiB; here it wraps, so that no match is found behind that point, and the promise for a source that repeats one byte ends there.
- FseNormalize.NormalizeFreq: more symbols than states, which no caller passes.
- BOM files that were not produced in the layout of these operations (`bom_alloc_load`, memory-mapped files), the iteration counters that guard against mutation while iterating, and `bom_index_iterate`.
- BomStore.Context.FreeIndicesAdd: assumes that the file is long enough for the slots it clears, which the C code does not test.
- BomStore.Context.IndexAppend: for a slot that holds a block; an unused slot has no block to grow. The assertion on the index in debug builds, which compares it with the count in its big-endian form, is not modelled.
- BomStore.Context.VariableAdd: a name of 256 bytes or more keeps its length modulo 256, as in C.
- BomTree.Tree.Add: for fewer than 65535 entries, and for a leaf without room only while the overrun stays in the buffer.
- BomTree.Tree.AddAll: for a leaf with room for all the pairs; without it the tree is damaged as `Add` says.
- BomTree.Tree.Iterate: for a finite chain of leaves whose entries lie inside their blocks.
- BomCloner.CloneAndIterate: for a chain whose last link ends the copy too; `CloneTree` says exactly when that is so.
- BomCloner.CloneIteratesAlike: a field that resolves to nothing in the source is carried through unchanged, and may resolve in the copy.
- BomCloner.TreeGraphCloner.CloneTreeVariable: for graphs in which no block is both node and payload, and destinations that stay below 4 GiB.
- The passthrough of variables that are not trees, and which variables the writer manages itself: a plain copy of one block.
- Renditions, facets, attribute lists, pixel formats, checksums and the command line.
