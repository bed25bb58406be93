# A model of the LZ4 and CRC-32C code of librdkafka, and of property packing

Kafka messages pass through four pieces of code here, and this project states and proves what they do.

**LZ4 blocks** (`lz4.c`). `BlockFormat` is the reference: a decoder over sequences of bytes, with the
end-of-block restrictions, and an encoding of sequences; `BlockWire` says the same of single bytes. `Copies` and
`BlockDecoder` are LZ4_decompress_generic with its fast loop, safe loop, shortcut, wild copies and dictionary
modes, over one flat memory in which pointers are addresses and address 0 is NULL. Not all of its paths test the
end-of-block restrictions, and none tests for an offset of 0. What it accepts is therefore stated from both sides:
it accepts every valid block, and what it accepts means the output in the sense of `BlockMeaning`, which has no such
restrictions and leaves undefined what an offset of 0 or a length of 2^32 stand for. `MatchCount`, `MatchSearch`,
`BlockWriter`, `BlockEncoder` and `BlockApi` are LZ4_compress_generic with its three output modes; `GreedyParse` is
the parse it encodes, defined on the input, the hash and the table; `WrongMatches` is about matches that must not be
encoded; `BlockStream` and `LinkedBlocks` are streams of linked blocks. The hash of the match finder is an arbitrary
function.

**LZ4 frames** (`lz4frame.c`, following the LZ4 Frame Format 1.6.1). `FrameFormat` says what a frame is,
which bytes stand for it and what it holds; `FramePosition` and `FrameChain` describe a frame from the
inside, as a decoder and as an encoder see it. `FrameHistory` and `FrameDecoder` are the fifteen-stage
resumable decoder, `FrameEncoder` the buffering encoder, `Incompressible` its worst case, and `FrameRuns`
whole runs of both. The decoder, too, is described from both sides: it decodes every valid frame, and whatever it takes
for one is a frame in the sense of `FrameShell`, with right checksums and sizes, whose end mark may have its highest bit
set, whose size, if it is not 0, is counted modulo 2^64, and whose blocks mean the output. XXH32 is an arbitrary
function of the bytes it is given; its streaming state is those bytes.

**CRC-32C** (`crc32c.c`). `Crc32c` is the bit-at-a-time definition and its linearity, `CrcPolynomial` the
division of polynomials it carries out, `Crc32cSoftware` the table-driven form and `Crc32cHardware` the three-way
form, with the two CRC instructions taken as one and as eight reference byte steps.

**Property packing** (`kafkatools_producer.c`). `Properties` is the two-pass packing of a section into one
buffer, and its inverse. What each pass finds in the file is a parameter.

## What turned out not to hold

- The search loop keeps its acceleration counter in a 32-bit int (lz4.c:896), which wraps for large
  accelerations. `MatchSearch.SearchAdvances` proves that the search goes forward exactly when acceleration
  modulo 2^26 is in [1, 2^25), which includes everything below 2^25; the results on compression ask for
  that (`Steady`). At 2^26 it takes a position for its own match (`MatchSearch.StalledSearch`), at an offset
  of 0, and the block does not decode (`WrongMatches.StalledBlock`); from 2^25 on it goes backwards
  (`MatchSearch.BackwardSearch`).
- The compressor recognises a match in an external dictionary by its low limit, which it compares with the
  start of the dictionary (lz4.c:1016-1017). When the block starts there too, the low limit of a match inside
  the block is the same: the match is counted to the end of the dictionary, and on from the start of the block,
  whatever stands behind the match. LZ4_compress_fast_continue lets that happen when a block starts where the
  dictionary does and is not shorter (lz4.c:1511). `WrongMatches.CountingExact` proves for every block size that
  matches are counted right for every content exactly when the two do not start together or the block is too
  short: less than seven bytes longer than the dictionary, or of less than 14 bytes, 15 after a dictionary of
  four (`MatchSearch.Outlasts`). `LinkedBlocks.RestartFails` follows an input to a block that does not decode. The
  condition is on addresses and sizes (`BlockStream.Window.Restarts`): `LinkedBlocks.NoneRestarts` states it
  for a run of blocks, `FrameEncoder.Encoder.Retakes` for an update, `FrameRuns.Allowed` for a run of updates:
  a source must not start where the last bytes taken lie one after the other in stable sources
  (`FrameRuns.Lined`), with a first block too long for a dictionary of that many bytes.
- LZ4_compress_fast_continue on more than LZ4_MAX_INPUT_SIZE bytes that are not adjacent to the dictionary
  leaves a stream that claims more history than it has indices for (lz4.c:1553-1554).
  `BlockStream.Stream.Continue` states exactly when, and `BlockStream.Stream.RefusedInput` what the next block would
  then take for a candidate. lz4.h asks callers to reset a stream after an error.
- LZ4F_compressBound_internal counts blocks in 32 bits (lz4frame.c:338-341), so it asks for too little once
  there are 2^32 of them: `FrameEncoder.BoundCovers` states exactly when, `FrameEncoder.UncountedBlocks`
  gives an amount, and `Incompressible.WorstUpdate` shows that there is content that needs it all. Updates then
  need the room the blocks can take.
- LZ4F_compressEnd compares the promised size with a 64-bit total. What it accepts is a valid frame exactly
  when no size was promised or the input is shorter than 2^64 (`FrameEncoder.Encoder.End`);
  `FrameEncoder.WrappedTotal` is a case of the contrary.
- LZ4F_updateDict recognises continued output by comparing addresses (lz4frame.c:1293). An output buffer that
  starts exactly where a dictionary filling the internal buffer ends is taken for its continuation, exactly
  then (`FrameDecoder.Decoder.UpdateDict`), and history is left in memory the caller may reuse
  (`FrameDecoder.Decoder.AdjacentOutput`). `FrameDecoder.Decoder.Offered` excludes that, and nothing else that
  is the caller's. The encoder has no such case: its buffer may touch the source on either side.
- kafkatools_props_readconf returns the count of the first pass. When the second pass finds other properties
  that happen to pack to the same size, retrieving that many finds all of them exactly when there are equally
  many, and needs strings past the end exactly when there are fewer (`Properties.RoundTrip`,
  `Properties.CountTooLarge`).

## Model

| member | source | states |
|---|---|---|
| FrameRuns.DecodeInPieces | librdkafka-1.4.2/src/lz4frame.c:1371-1840 | a valid frame, decoded by any sequence of calls with any input sizes, any output buffers, stable or not, and any use of the caller's memory in between that leaves alone what is promised of the last 64 KB of output: the outputs so far are always the beginning of the frame's content, and are all of it, with exactly the frame's bytes consumed, once 0 is returned; a call is left out exactly when it would touch stable output among the last 64 KB that has been followed by stable output only, or names memory that is not the caller's, or at most when it offers a buffer right behind the decoder's memory; every useful call made brings progress, and more plain calls than the frame and its content have bytes always reach the end |
| FrameRuns.DecodeRest | librdkafka-1.4.2/src/lz4frame.c:1371-1840 | the same from any point of a frame before its end, whatever has been output by then and promised of it |
| FrameRuns.OneCall | librdkafka-1.4.2/src/lz4frame.c:1371-1840 | one call of such a run is made exactly when the caller may make it and its buffer is not taken for the continuation of the decoder's full one; it adds exactly the bytes it wrote to the output, takes input or gives output whenever it is offered both, and afterwards relies on promised memory only, and knows which byte of the output stands where in it |
| FrameRuns.DecodeAtOnce | librdkafka-1.4.2/src/lz4frame.c:1360-1369 | all of a frame and room for exactly its content or more: one call outputs all of it, and reaches the end of the frame unless there is no room to spare and the decoder is left waiting for an empty compressed block |
| FrameRuns.DecodeAnything | librdkafka-1.4.2/src/lz4frame.c:1371-1840 | any input at all, given to a new decoder in any pieces and any room: when it says that a frame is complete, what it has taken is one with the right checksums and sizes, and holds the output |
| FrameShell.DeliveredMeans | librdkafka-1.4.2/src/lz4frame.c:1134-1196 | what it takes for a complete frame: a skippable one, without output, or one with an accepted header, which ends with the bytes of the checksum of all output if it is to have one, and whose output has the size it gives, modulo 2^64 |
| FrameShell.ShellIsFrame | librdkafka-1.4.2/src/lz4frame.c:1371-1840 | such a frame, if its blocks are valid, it ends with 0 and holds as much as it says, is a valid frame with that content; and every valid frame is such a frame |
| FrameRuns.EncodeInPieces | librdkafka-1.4.2/src/lz4frame.c:600-1018 | any sequence of updates, flushes and writes to memory that leaves alone what is still needed of stable sources, with no source that starts where the last input lies in one stretch of stable memory and that is long enough for a match to be miscounted after it, each update with just the room the bound asks for: all are carried out; the end is refused exactly when the header promised another size modulo 2^64; and else all output together is the frame with the preferences' header whose content is, byte for byte, what the sources held when they were taken, exactly unless a size was promised and 2^64 bytes or more were taken |
| FrameRuns.Operate | librdkafka-1.4.2/src/lz4frame.c:823-975 | an update adds exactly its source to the input, a flush and a write to memory add nothing, a flush leaves nothing buffered, and memory outside the encoder's own changes only where it is written to |
| FrameRuns.NotRelied | librdkafka-1.4.2/src/lz4frame.c:893-902 | the encoder relies on no byte of a stable source that lies more than 64 KB behind the last block, or 64 KB and a block behind the input |
| FrameRuns.NotRetaken | librdkafka-1.4.2/src/lz4frame.c:871-891 | a source that is allowed is none for which the dictionary in use starts where it does, with a first block long enough for a match to be miscounted |
| FrameRuns.LinedEnds | librdkafka-1.4.2/src/lz4frame.c:871-891 | such a stretch, if it ends in the caller's memory, ends with the last byte taken: a source is only shut out after a stable one that ends where the stretch does |
| FrameRuns.Finish | librdkafka-1.4.2/src/lz4frame.c:984-1018 | the end of such a run |
| FrameRuns.RoundTrip | librdkafka-1.4.2/src/lz4frame.c:600-1840 | what any run of the encoder took comes back from any run of the decoder, whether or not LZ4F_getFrameInfo is asked first, which then reports the preferences' header; and all of it comes back once there are enough plain calls |
| FrameRuns.Decode | librdkafka-1.4.2/src/lz4frame.c:1246-1840 | a frame decoded after a look at its header, or without |
| FramePosition.FrameUnique | librdkafka-1.4.2/src/lz4frame.c:1109-1840 | no valid frame's bytes begin another's, so what a sequence of bytes starts with can be read as one frame at most, with one content |
| LinkedBlocks.RoundTrip | librdkafka-1.4.2/src/lz4.c:1485-1557 | blocks taken from anywhere in memory, in any order and with any overlap, but none that starts where the dictionary it meets starts and is long enough for a match to be miscounted, compressed one after the other by LZ4_compress_fast_continue: each decodes to itself in a buffer of exactly its size, both right after the earlier output and elsewhere with that output as external dictionary |
| LinkedBlocks.RestartFails | librdkafka-1.4.2/src/lz4.c:1511-1550 | that exception is real whatever the hash: after a first block of 9 to 12 bytes, which enters no position, a longer one at the same place can have a content for which the second turn of the search finds a match that is miscounted, and no block that starts with it decodes |
| WrongMatches.CountingExact | librdkafka-1.4.2/src/lz4.c:1013-1033 | in external-dictionary mode every match is counted right, whatever the content, exactly when the dictionary does not start where the block does, or the block is not at least seven bytes longer, or it has less than 14 bytes, 15 after a dictionary of four; and so in blocks of any size exactly when the two start apart |
| WrongMatches.MiscountTaken | librdkafka-1.4.2/src/lz4.c:893-1033 | for every dictionary of 9 bytes or more that starts where the block does, and every hash, a content whose miscounted match the search takes from a table without entries, and after which nothing makes the block decode |
| WrongMatches.OnlyUsable | librdkafka-1.4.2/src/lz4.c:1002-1033 | whatever follows, a block decodes to the input only if every match in it, after sequences that are right, repeats bytes that agree and lie within the history |
| WrongMatches.MatchDemanded | librdkafka-1.4.2/src/lz4.c:1958-2054 | the same for any point of any block: the decoder takes an encoded match only within what precedes it, and what comes out agrees with itself at the offset |
| WrongMatches.StalledBlock | librdkafka-1.4.2/src/lz4.c:896-1011 | a block with the match a standing search finds does not decode, whatever precedes and follows it |
| BlockApi.RoundTrip | librdkafka-1.4.2/src/lz4.c:1180-1207 | every input up to LZ4_MAX_INPUT_SIZE, compressed with at least compressBound room and any steady acceleration, gives n > 0 bytes that LZ4_decompress_safe turns back into the input for every capacity that holds it |
| Crc32cHardware.Hardware | librdkafka-1.4.2/src/crc32c.c:249-332 | for every buffer, starting value and address, the three-way form equals the bit-at-a-time CRC-32C, which is the remainder of the polynomial of section 12.1 of RFC 3720, and so the table-driven form |
| Crc32cSoftware.Software | librdkafka-1.4.2/src/crc32c.c:97-128 | for every buffer, starting value and address, the eight-bytes-at-a-time form equals the bit-at-a-time CRC-32C |
| CrcPolynomial.CrcIsRemainder | librdkafka-1.4.2/src/crc32c.c:63-128 | for every message and starting value, the bit-at-a-time CRC-32C is, complemented and lowest bit first, the remainder of the message's bits and 32 zeros, with the complemented starting value added in front, on division by the polynomial with the exponents of section 12.1 of RFC 3720; and nothing else is |
| CrcPolynomial.Division | librdkafka-1.4.2/src/crc32c.c:75-82 | that remainder: every polynomial is a multiple of the generator and a remainder of 32 coefficients |
| CrcPolynomial.RegisterIsRemainder | librdkafka-1.4.2/src/crc32c.c:75-82 | a shift register fed with a message holds the remainder of the message and 32 zeros |
| CrcPolynomial.PolyIs | librdkafka-1.4.2/src/crc32c.c:63 | the constant is the generator's exponents, lowest bit for the highest of them |
| CrcPolynomial.CheckValue | librdkafka-1.4.2/src/crc32c.c:97-128 | the digits 1 to 9 give 0xe3069283 |
| CrcPolynomial.ZerosValue | librdkafka-1.4.2/src/crc32c.c:97-128 | 32 zero bytes give 0x8a9136aa, as appendix B.4 of RFC 3720 has it |
| Properties.RoundTrip | src/kafkatools_producer.c:280-388 | for any two passes over a file: the strings asked for are there exactly when the second pass found at least as many properties as the first, what is retrieved then is the beginning of what the second pass found, and it is all of it exactly when both found equally many; an empty selection comes back empty |
| BlockFormat.ReadExtBytes | librdkafka-1.4.2/src/lz4.c:1625-1645 | the length extension read back from the bytes written for any length is that length, ending where they end |
| BlockFormat.CopyMatchPeriod | librdkafka-1.4.2/src/lz4.c:2045-2054 | a byte-at-a-time self-overlapping copy keeps what was there and gives every new byte the value `offset` before it |
| BlockFormat.PeriodIsCopyMatch | librdkafka-1.4.2/src/lz4.c:2007-2054 | conversely, that period determines the copy |
| BlockFormat.DecodesUnique | librdkafka-1.4.2/src/lz4.c:1653-2068 | a block decodes to one content at most |
| BlockFormat.DecodesWindow | librdkafka-1.4.2/src/lz4.c:1977-2004 | history further back than the largest offset neither helps nor hurts: a block decodes with it exactly when it decodes without it |
| BlockFormat.InputLeft | librdkafka-1.4.2/src/lz4.c:1900-1956 | the end-of-block restrictions: whenever a match has just been copied, a token and five literals are still to come |
| BlockFormat.LitRunEncoded | librdkafka-1.4.2/src/lz4.c:971-981 | literal length and token nibble written by the encoder are read back |
| BlockFormat.ReadMatchEncoded | librdkafka-1.4.2/src/lz4.c:1002-1073 | offset and match length written by the encoder are read back |
| BlockFormat.DecodeEncoded | librdkafka-1.4.2/src/lz4.c:789-1177 | any sequences whose matches are allowed, with final literals, encode to a block that decodes to what replaying them gives |
| BlockWire.LiteralsInBytes | librdkafka-1.4.2/src/lz4.c:1720-1757 | byte by byte: the literals of a sequence are output as they stand behind the token and its length bytes |
| BlockWire.MatchInBytes | librdkafka-1.4.2/src/lz4.c:1760 | two bytes b0 and b1 follow them, and the output goes on with as many bytes as the match is long, each a copy of the one b0 + 256 b1 before it |
| BlockWire.OffsetInBytes | librdkafka-1.4.2/src/lz4.c:1006-1010 | in every sequence the compressor writes, the low byte of the offset follows the literals, and then the high byte |
| BlockWire.VectorDecodes | librdkafka-1.4.2/src/lz4.c:1653-2068 | a literal, a match at offset 1 and five literals, ten bytes in all, are the block of aaaaaaaabcdef |
| BlockWire.DecompressVector | librdkafka-1.4.2/src/lz4.c:2073-2079 | LZ4_decompress_safe gives that content for these ten bytes |
| BlockFormat.OffsetZero | librdkafka-1.4.2/src/lz4.c:1002-1011 | no history makes a block valid whose first match has offset 0 |
| BlockMeaning.ValidMeans | librdkafka-1.4.2/src/lz4.c:1653-2068 | what a block means without the restrictions on its end, within any room, is the content the reference decoder gives when it is valid |
| BlockMeaning.AcceptsWindow | librdkafka-1.4.2/src/lz4.c:1977-2004 | that too depends on the last 64 KB of the history only |
| Copies.WildCopy8 | librdkafka-1.4.2/src/lz4.c:359-365 | writes at most seven bytes past the end, and up to the end what a byte-at-a-time copy writes |
| Copies.WildCopy32 | librdkafka-1.4.2/src/lz4.c:411-418 | the same for pairs of 16-byte copies |
| Copies.WildCopyIn | librdkafka-1.4.2/src/lz4.c:359-418 | strided copies from the input buffer, with their exact overshoot |
| Copies.OverlapTables | librdkafka-1.4.2/src/lz4.c:368-369 | inc32table and dec64table: after eight bytes the distance is a multiple of the offset, and at least eight |
| Copies.MultiplePeriod | librdkafka-1.4.2/src/lz4.c:388-408 | a copy from a multiple of the period back has the period |
| Copies.OverlapStart | librdkafka-1.4.2/src/lz4.c:2026-2038 | the first eight bytes of an overlapping match, by table |
| Copies.CopyUsingOffsetBase | librdkafka-1.4.2/src/lz4.c:387-409 | equals a byte-at-a-time copy for every offset |
| Copies.PatternCopy | librdkafka-1.4.2/src/lz4.c:424-456 | offsets 1, 2 and 4 by a repeated eight-byte pattern |
| Copies.CopyUsingOffset | librdkafka-1.4.2/src/lz4.c:424-456 | equals a byte-at-a-time copy for every offset from 1 and every length |
| Copies.SafeCopy | librdkafka-1.4.2/src/lz4.c:2026-2054 | the copy at the end of the safe loop, refusing matches that reach into the last five bytes |
| BlockDecoder.ReadVariableLength | librdkafka-1.4.2/src/lz4.c:1625-1645 | succeeds exactly when the reference finds a length within the bounds, with the same end and the same value modulo 2^32; a length that is not read to its end is longer than what has been read |
| BlockDecoder.LongRun | librdkafka-1.4.2/src/lz4.c:1900-1912 | a literal length that stops at the end of the input is too long for it, and so is the whole of it |
| BlockDecoder.ExtCopy | librdkafka-1.4.2/src/lz4.c:1977-2004 | a match that starts in an external dictionary, with or without running on into the block, equals a copy from dictionary and block joined |
| BlockDecoder.FastLiterals | librdkafka-1.4.2/src/lz4.c:1720-1757 | literals of the fast loop: in bounds for every input, and the reference's bytes for a valid block |
| BlockDecoder.FastMatch | librdkafka-1.4.2/src/lz4.c:1759-1840 | matches of the fast loop, with the offset tested before a long length is read, and including the eighteen-byte shortcut and the external dictionary |
| BlockDecoder.FastLoop | librdkafka-1.4.2/src/lz4.c:1706-1842 | the fast loop hands over to the safe loop where the reference stands |
| BlockDecoder.Shortcut | librdkafka-1.4.2/src/lz4.c:1847-1890 | the two-stage shortcut |
| BlockDecoder.SafeLiterals | librdkafka-1.4.2/src/lz4.c:1900-1956 | literals of the safe loop, the last ones, and those a partial decoding stops in |
| BlockDecoder.FinalLiterals | librdkafka-1.4.2/src/lz4.c:1934-1952 | the last literals end the input and fit the output, or an error is returned |
| BlockDecoder.PartialLiterals | librdkafka-1.4.2/src/lz4.c:1914-1952 | a partial decoding may stop inside literals |
| BlockDecoder.PartialMatch | librdkafka-1.4.2/src/lz4.c:2010-2024 | a partial decoding may stop inside a match, also an overlapping one |
| BlockDecoder.SafeMatch | librdkafka-1.4.2/src/lz4.c:1975-2055 | matches of the safe loop |
| BlockDecoder.SafeLoop | librdkafka-1.4.2/src/lz4.c:1843-2056 | the safe loop ends with the reference's output, or with an error only for invalid blocks |
| BlockDecoder.DecompressGeneric | librdkafka-1.4.2/src/lz4.c:1653-2068 | no input makes it write outside the output range or read out of bounds; every block the reference accepts gives the reference's content, in full or up to the target of a partial decoding, as no length in it then wraps; and whatever it accepts in full is well-formed but for the restrictions on the end of a block, and the output is what it means, unless it has an offset of 0 or a length of 2^32 |
| BlockDecoder.DecompressSafe | librdkafka-1.4.2/src/lz4.c:2073-2079 | a valid block gives its size and its content; what is accepted means the output, unless it has an offset of 0 or a length of 2^32 |
| BlockDecoder.DecompressSafePartial | librdkafka-1.4.2/src/lz4.c:2081-2088 | a valid block of less than 2^32 bytes gives min(target, size) bytes, the beginning of its content |
| BlockDecoder.DictJobDecodes | librdkafka-1.4.2/src/lz4.c:2307-2320 | a prefix of 64 KB, a small prefix and an external dictionary are three ways of saying the same history |
| BlockDecoder.DecompressSafeUsingDict | librdkafka-1.4.2/src/lz4.c:2307-2320 | with the history right before the output or elsewhere, whatever its length, a valid block gives its content, and what is accepted means the output |
| MatchCount.CtzByte | librdkafka-1.4.2/src/lz4.c:463-498 | trailing zero bits in whole bytes, for every word |
| MatchCount.CommonBytes | librdkafka-1.4.2/src/lz4.c:463-498 | the number of trailing zero bytes of a difference is the number of agreeing low bytes |
| MatchCount.WordCompare | librdkafka-1.4.2/src/lz4.c:536-551 | comparing two words by their difference finds the first byte that differs |
| MatchCount.Count | librdkafka-1.4.2/src/lz4.c:536-559 | LZ4_count returns the length of the longest common run up to the limit, for every input, and 0 when the limit is not ahead |
| MatchCount.CountTail | librdkafka-1.4.2/src/lz4.c:555-558 | the 4, 2 and 1 byte steps at the end |
| BlockWriter.WriteExt | librdkafka-1.4.2/src/lz4.c:972-975 | length bytes of 255 and a last one below |
| BlockWriter.WriteMatchExt | librdkafka-1.4.2/src/lz4.c:1062-1071 | match lengths with four 255 bytes at a time: the same bytes, and how far past the end is written |
| BlockWriter.WriteRun | librdkafka-1.4.2/src/lz4.c:971-977 | token and length of a literal run |
| BlockWriter.WriteLits | librdkafka-1.4.2/src/lz4.c:971-981 | a literal run with its wild copy, which writes at most seven bytes more, or eight for an empty run |
| BlockWriter.WriteLast | librdkafka-1.4.2/src/lz4.c:1157-1167 | the last literals |
| BlockWriter.WriteCode | librdkafka-1.4.2/src/lz4.c:1062-1075 | the match length patched into the token and written behind the offset makes up a whole sequence |
| MatchSearch.SearchAdvances | librdkafka-1.4.2/src/lz4.c:896-907 | with its counter a 32-bit int, the search steps forward on every turn, for inputs of any size, exactly when acceleration modulo 2^26 is in [1, 2^25) |
| MatchSearch.StalledSearch | librdkafka-1.4.2/src/lz4.c:896-946 | where it is 0 the second and third turn look at the same position, and the third takes the entry the second made for a match at offset 0 |
| MatchSearch.BackwardSearch | librdkafka-1.4.2/src/lz4.c:896-946 | where it is 2^25 or more the third turn is not ahead of the first, by exactly how much; where it looks at the same position again it finds none that may be matched, and itself if the hashes differ |
| MatchSearch.FindMatch | librdkafka-1.4.2/src/lz4.c:893-953 | with a steady acceleration the search ends, and what it finds, and the table it leaves, are those of the search defined on input, hash and table; it is an earlier occurrence of the next four bytes, within reach |
| MatchSearch.CatchUp | librdkafka-1.4.2/src/lz4.c:955-957 | extending a match backwards, as far as it goes, keeps it a match, within the dictionary or the block |
| MatchSearch.CountMatch | librdkafka-1.4.2/src/lz4.c:1013-1033 | what is counted for a match, to the byte, in external-dictionary mode up to the end of the dictionary and on from the start of the block whenever the low limit is the dictionary's start; and when the two cannot be confused, that this is a usable match, not shorter than what is known to agree |
| MatchSearch.CountedUsable | librdkafka-1.4.2/src/lz4.c:1013-1033 | that count may be encoded, also across the end of an external dictionary, when the dictionary does not start where the block does or the block is too short for harm |
| MatchSearch.ShortCounted | librdkafka-1.4.2/src/lz4.c:1013-1033 | in a block that is just too short, a match counted as if in the dictionary has a period the start of the block goes on with, so that the count is that of a match in the block; or it ends with its first four bytes |
| MatchSearch.TestNext | librdkafka-1.4.2/src/lz4.c:1086-1135 | the immediate re-match at the next position: whether there is one, and the table it leaves |
| MatchSearch.PutPosition | librdkafka-1.4.2/src/lz4.c:694-699 | a table entry for a position, and no other; the table stays sound |
| MatchSearch.ClearPositions | librdkafka-1.4.2/src/lz4.c:1046-1055 | after a match is shortened, entries beyond it are gone |
| GreedyParse.BlockAlike | librdkafka-1.4.2/src/lz4.c:789-1177 | the greedy parse of an input, and the block that encodes it, are the same for every kind of output |
| GreedyParse.UniformBlock | librdkafka-1.4.2/src/lz4.c:789-1177 | for 13 equal bytes or more without history, whatever the hash, the table and the acceleration, the parse is one literal, one match of all but six bytes and five literals, 10 + (n + 230) / 255 bytes in all |
| BlockEncoder.TightSeq | librdkafka-1.4.2/src/lz4.c:960-985 | the amount of output after each sequence stays within 256/255 of the input |
| BlockEncoder.TightLast | librdkafka-1.4.2/src/lz4.h:171 | and with the last literals within LZ4_COMPRESSBOUND |
| BlockEncoder.CountAndFit | librdkafka-1.4.2/src/lz4.c:1013-1060 | a match is shortened so that its length code fits the output, or given up |
| BlockEncoder.EmitMatch | librdkafka-1.4.2/src/lz4.c:1002-1078 | one match: written in full as the parse has it, shortened to fit, rewound, or refused only when the block does not fit |
| BlockEncoder.ReplayStep | librdkafka-1.4.2/src/lz4.c:1002-1078 | a match found by the search may follow the sequences so far |
| BlockEncoder.EncodeMatch | librdkafka-1.4.2/src/lz4.c:986-1078 | one match: written in full, shortened to fit, rewound, or refused only when the output is smaller than the bound |
| BlockEncoder.EncodeLiterals | librdkafka-1.4.2/src/lz4.c:959-985 | one literal run, within the limit whatever the mode |
| BlockEncoder.LastLiterals | librdkafka-1.4.2/src/lz4.c:1142-1168 | the last literals, cut to the room left when the output is to be filled, of which then at most one byte in 65025 and one more are left |
| BlockEncoder.WriteSequences | librdkafka-1.4.2/src/lz4.c:865-1140 | the sequences are those of the greedy parse; without a limit on the output or within it all of them, and else as many as fit |
| BlockEncoder.CompressLoop | librdkafka-1.4.2/src/lz4.c:865-1140 | the sequences written so far replay to the input so far, at every turn |
| BlockEncoder.CompressGeneric | librdkafka-1.4.2/src/lz4.c:789-1177 | whatever the hash function, table, mode and dictionary, unless that starts where the block does and the block is long enough for a match to be miscounted: nothing is written past the limit; the output is the encoding of the greedy parse exactly when that fits, and 0 is returned exactly when it does not; filling the output, the sequences are those of the parse as far as there is room, the last one shortened, and all input is consumed or the output is full but for one byte in 65025 and one more; the block decodes against the history to exactly the consumed input, and with the bound's room the result is never 0 |
| BlockApi.CompressFast | librdkafka-1.4.2/src/lz4.c:1180-1207 | as above for one-shot compression with any steady acceleration: the block of the greedy parse exactly when the capacity holds it and the input is not too large, and 0 otherwise |
| BlockApi.UniformSize | librdkafka-1.4.2/src/lz4.c:1180-1207 | for n equal bytes, 13 or more, that block has 10 + (n + 230) / 255 bytes |
| BlockApi.CompressDestSize | librdkafka-1.4.2/src/lz4.c:1292-1306 | at most `target` bytes, at most the source consumed; the block decodes to exactly the consumed part; all is consumed, or the target is reached but for one byte in 65025 and one more; and the sequences are those of the greedy parse as far as there is room |
| BlockApi.UniformFills | librdkafka-1.4.2/src/lz4.c:1142-1172 | for equal bytes and a target that holds their block and is at least 13, all of it is written |
| BlockStream.RenormPreserves | librdkafka-1.4.2/src/lz4.c:1465-1482 | renormalising an entry keeps whether the search of the next block takes it as a candidate, by its own test and at every position, and the offset it would be encoded with |
| BlockStream.Stream.constructor | librdkafka-1.4.2/src/lz4.c:1333-1368 | an empty stream |
| BlockStream.Stream.Renorm | librdkafka-1.4.2/src/lz4.c:1465-1482 | the whole table, the offset and the dictionary after renormalisation, which comes before any overflow; for every slot and every position of the next block, the search's own test and the offset come out as before |
| BlockStream.Stream.SettleDict | librdkafka-1.4.2/src/lz4.c:1500-1519 | a tiny dictionary that is not adjacent is dropped, and so is what the source overlaps |
| BlockStream.Stream.Continue | librdkafka-1.4.2/src/lz4.c:1485-1557 | with a steady acceleration and a dictionary of which the last 64 KB are as they were, and which does not start where the block does if that is long enough for a match to be miscounted: the output is the block of the greedy parse on the stream's table exactly when that fits, and decodes against all earlier input of the stream to the new input, which joins the history whether or not it was compressed; an oversized input is refused, and leaves the stream valid exactly when it is adjacent, and else with that input as dictionary |
| BlockStream.Stream.RefusedInput | librdkafka-1.4.2/src/lz4.c:1521-1554 | in the state that leaves, an empty slot of the table passes, for the job the next block is compressed with, for a candidate inside the refused input |
| BlockStream.SettledIs | librdkafka-1.4.2/src/lz4.c:1465-1519 | what renormalisation and the dictionary checks leave of a dictionary: whether it is adjacent, how much of it is usable, where it will lie after the block, and exactly when it starts where a block does that is long enough for a match to be miscounted |
| BlockStream.Stream.AgainstHistory | librdkafka-1.4.2/src/lz4.c:1521-1550 | a block compressed against a dictionary decodes against the history when only the last 64 KB of the dictionary are as they were |
| BlockStream.Stream.CompressLinked | librdkafka-1.4.2/src/lz4.c:1521-1556 | prefix mode and external-dictionary mode, each with the block of the greedy parse exactly when it fits |
| BlockStream.Stream.SaveDict | librdkafka-1.4.2/src/lz4.c:1588-1609 | the end of the history moves to the safe buffer, and the stream goes on from there |
| BlockStream.Stream.PrepareTable | librdkafka-1.4.2/src/lz4.c:738-786 | exactly when the table is cleared, and what offset the next block has; no entry of an earlier use can be taken for a new one |
| BlockStream.Stream.ResetFast | librdkafka-1.4.2/src/lz4.c:1375-1377 | a stream without history |
| BlockStream.Stream.CompressFastReset | librdkafka-1.4.2/src/lz4.c:1211-1245 | a block on its own on a table used before is that of the greedy parse exactly when it fits, and decodes without history; an oversized input is refused |
| LinkedBlocks.CompressPiece | librdkafka-1.4.2/src/lz4.c:1485-1557 | one block of a run |
| LinkedBlocks.DecodeAt | librdkafka-1.4.2/src/lz4.c:2307-2320 | a block decoded with earlier output as dictionary, at a place that leaves it alone |
| Crc32c.BitsLinear | librdkafka-1.4.2/src/crc32c.c:138-150 | zero bits act linearly on the register over GF(2) |
| Crc32c.RawSplit | librdkafka-1.4.2/src/crc32c.c:206-225 | starting register and message contribute independently |
| Crc32c.CrcConcat | librdkafka-1.4.2/src/crc32c.c:354-362 | a checksum continued over a second piece is the checksum of both pieces joined |
| Crc32c.TableStep | librdkafka-1.4.2/src/crc32c.c:104 | one table look-up is eight bit steps |
| Crc32c.FoldRegister | librdkafka-1.4.2/src/crc32c.c:111 | a register that fits may be added to the message instead |
| Crc32cSoftware.InitSoftware | librdkafka-1.4.2/src/crc32c.c:69-92 | row k, column n of the table is the register of byte n after k more zero bytes |
| Crc32cSoftware.ByteByTable | librdkafka-1.4.2/src/crc32c.c:103-106 | one byte by table in the 64-bit register |
| Crc32cSoftware.EightBytes | librdkafka-1.4.2/src/crc32c.c:107-123 | eight look-ups advance the register over eight bytes |
| Crc32cHardware.MatrixTimes | librdkafka-1.4.2/src/crc32c.c:138-150 | a matrix that stands for n zero bits applies them to any register |
| Crc32cHardware.MatrixSquare | librdkafka-1.4.2/src/crc32c.c:154-160 | squaring doubles the zero bits |
| Crc32cHardware.OneBit | librdkafka-1.4.2/src/crc32c.c:173-179 | the operator for one zero bit |
| Crc32cHardware.PowerFloorIs | librdkafka-1.4.2/src/crc32c.c:164-202 | repeated halving finds the one power of two in (len / 2, len] |
| Crc32cHardware.ZerosOp | librdkafka-1.4.2/src/crc32c.c:167-202 | for every length, the operator for 8 times the largest power of two within it, and for one byte when it is 0, whichever exit the loop takes |
| Crc32cHardware.Zeros | librdkafka-1.4.2/src/crc32c.c:206-218 | four tables of that operator, one for each byte position |
| Crc32cHardware.Shift | librdkafka-1.4.2/src/crc32c.c:221-225 | the tables apply the operator to any register |
| Crc32cHardware.InitHardware | librdkafka-1.4.2/src/crc32c.c:242-246 | tables for 8192 and for 256 zero bytes |
| Crc32cHardware.Recombine | librdkafka-1.4.2/src/crc32c.c:284-285 | two adjacent stretches, the second from zero, joined by zero bits |
| Crc32cHardware.ThreeWay | librdkafka-1.4.2/src/crc32c.c:272-288 | three blocks in parallel registers make the register of all three |
| FrameFormat.Read32Bytes | librdkafka-1.4.2/src/lz4frame.c:147-164 | reading and writing 32-bit numbers are inverse, both ways |
| FrameFormat.Read64Bytes | librdkafka-1.4.2/src/lz4frame.c:166-191 | the same for 64 bits |
| FrameFormat.HeaderCodec | librdkafka-1.4.2/src/lz4frame.c:1134-1196 | headers and header bytes correspond one to one: exactly the encodings of headers pass the tests, and each is read back as the header it encodes |
| FrameFormat.HeaderOnWire | librdkafka-1.4.2/src/lz4frame.c:671-697 | the bytes of a header, one by one: 04 22 4D 18, the flags, the block size, the optional fields and the second byte of the hash of those |
| FrameShell.BlockOnWire | librdkafka-1.4.2/src/lz4frame.c:746-760 | the four bytes in front of a block, with the highest bit set for a stored one, the data and the checksum of the data |
| FrameShell.SkippableOnWire | librdkafka-1.4.2/src/lz4frame.c:1116-1131 | the bytes of a skippable frame |
| FrameShell.EmptyFrame | librdkafka-1.4.2/src/lz4frame.c:984-1018 | the fifteen bytes of a frame without content and with a checksum |
| FrameFormat.BodySize | librdkafka-1.4.2/src/lz4frame.c:1707-1709 | a content size in the header is the size of the content |
| FramePosition.ReadBlockHeader | librdkafka-1.4.2/src/lz4frame.c:1485-1508 | what the next four bytes of a frame say, and where they lead |
| FramePosition.CopyStored | librdkafka-1.4.2/src/lz4frame.c:1510-1543 | part of a stored block |
| FramePosition.ReadPacked | librdkafka-1.4.2/src/lz4frame.c:1603-1618 | a compressed block with its checksum, and what follows it |
| FramePosition.BodyUnique | librdkafka-1.4.2/src/lz4frame.c:1455-1754 | two bodies with the same bytes after the same content are the same |
| FrameHistory.DictDecodes | librdkafka-1.4.2/src/lz4frame.c:1620-1680 | a dictionary that ends with the last min(64 KB, total) bytes of the output is enough for every block valid after the whole output |
| FrameChain.ChainFrame | librdkafka-1.4.2/src/lz4frame.c:984-1018 | a header, the blocks as emitted, an end mark and a checksum are a valid frame holding the blocks' content |
| FrameDecoder.Decoder.constructor | librdkafka-1.4.2/src/lz4frame.c:1065-1076 | a decoder before any frame |
| FrameDecoder.Decoder.DecodeHeader | librdkafka-1.4.2/src/lz4frame.c:1109-1198 | accepts exactly the encodings of headers, from the input or from its own copy; asks for the rest of a longer header; recognises skippable frames |
| FrameDecoder.Decoder.MeasureHeader | librdkafka-1.4.2/src/lz4frame.c:1205-1230 | the size of the header from its first five bytes, or exactly which error |
| FrameDecoder.Decoder.GetFrameInfo | librdkafka-1.4.2/src/lz4frame.c:1246-1281 | before a frame, takes and reports exactly the header when all of it is there, and nothing else; later takes nothing; decoding goes on where it was |
| FrameDecoder.Decoder.ReadFrameInfo | librdkafka-1.4.2/src/lz4frame.c:1258-1280 | the first of these cases |
| FrameDecoder.Decoder.ExtendDict | librdkafka-1.4.2/src/lz4frame.c:1293-1296 | output that continues the dictionary |
| FrameDecoder.Decoder.AdoptOutput | librdkafka-1.4.2/src/lz4frame.c:1299-1303 | output long enough to be the dictionary |
| FrameDecoder.Decoder.ExtendInBuffer | librdkafka-1.4.2/src/lz4frame.c:1309-1314 | output of a block that waits behind the history in the buffer |
| FrameDecoder.Decoder.MoveInFront | librdkafka-1.4.2/src/lz4frame.c:1316-1328 | the useful part of the history is copied to the front of a waiting block, from memory it does not overlap |
| FrameDecoder.Decoder.BringToBuffer | librdkafka-1.4.2/src/lz4frame.c:1330-1334 | the end of the history moved to the start of the buffer, from memory it does not overlap |
| FrameDecoder.Decoder.AppendToBuffer | librdkafka-1.4.2/src/lz4frame.c:1336-1338 | new output copied behind it |
| FrameDecoder.Decoder.SaveOutput | librdkafka-1.4.2/src/lz4frame.c:1305-1349 | output that is not history enough goes to the buffer, which it neither overruns nor is taken to continue |
| FrameDecoder.Decoder.UpdateDict | librdkafka-1.4.2/src/lz4frame.c:1286-1349 | after every branch the dictionary ends with the output so far, and once the waiting block is out it reaches back 64 KB or to the start of the frame; of the caller's memory it relies on no more than before and on this call's output; and it stays in its place exactly unless the output starts right behind a dictionary that fills the buffer |
| FrameDecoder.Decoder.AdjacentOutput | librdkafka-1.4.2/src/lz4frame.c:1293-1296 | in that case the end of LZ4F_decompress sees nothing to save, and the history is lost when the caller changes the last byte of its buffer |
| FrameDecoder.Decoder.Welcome | librdkafka-1.4.2/src/lz4frame.c:1293-1296 | that case needs an output buffer right behind all the memory the decoder can have |
| FrameDecoder.Decoder.StageGetFrameHeader | librdkafka-1.4.2/src/lz4frame.c:1400-1411 | each stage keeps the state well-formed for every input, accounts for all input taken and all output of it, and is in step with the frame for a valid one; here the shortcut for a whole header |
| FrameDecoder.Decoder.StageStoreFrameHeader | librdkafka-1.4.2/src/lz4frame.c:1413-1427 | the header set aside in pieces |
| FrameDecoder.Decoder.StageInit | librdkafka-1.4.2/src/lz4frame.c:1429-1453 | buffers of the sizes the frame needs, or an error, which a frame whose buffer fits never gets |
| FrameDecoder.Decoder.Allocate | librdkafka-1.4.2/src/lz4frame.c:1432-1445 | fails exactly when the buffer needed is larger than the one there is and than the one to be had |
| FrameDecoder.Decoder.BlockHeader | librdkafka-1.4.2/src/lz4frame.c:1485-1508 | end mark, stored block or compressed block, and its size limit |
| FrameDecoder.Decoder.StageGetBlockHeader | librdkafka-1.4.2/src/lz4frame.c:1455-1464 | a block header in one piece |
| FrameDecoder.Decoder.StageStoreBlockHeader | librdkafka-1.4.2/src/lz4frame.c:1465-1483 | a block header in pieces |
| FrameDecoder.Decoder.Count | librdkafka-1.4.2/src/lz4frame.c:1513-1527 | checksum and remaining size count what is output, for every input |
| FrameDecoder.Decoder.StageCopyDirect | librdkafka-1.4.2/src/lz4frame.c:1510-1543 | stored blocks, as far as input and room go |
| FrameDecoder.Decoder.StageBlockChecksum | librdkafka-1.4.2/src/lz4frame.c:1545-1573 | the checksum of a stored block, in one piece or several: an error exactly when its four bytes are not those of the hash of the block |
| FrameDecoder.Decoder.Decode | librdkafka-1.4.2/src/lz4frame.c:1619-1632 | a block decoded with the dictionary as it stands: a valid one gives its content, and what is accepted means the output |
| FrameDecoder.Decoder.DecodeDirect | librdkafka-1.4.2/src/lz4frame.c:1619-1645 | a block decoded straight to the output |
| FrameDecoder.Decoder.PlaceBlock | librdkafka-1.4.2/src/lz4frame.c:1647-1659 | room for a block in the buffer, after the history there or room for it |
| FrameDecoder.Decoder.DecodeAside | librdkafka-1.4.2/src/lz4frame.c:1647-1684 | a block decoded to the buffer leaves the dictionary alone |
| FrameDecoder.Decoder.DecodeBlock | librdkafka-1.4.2/src/lz4frame.c:1603-1684 | the checksum, with an error exactly when it is not that of the block, and which of the two |
| FrameDecoder.Decoder.DecodeData | librdkafka-1.4.2/src/lz4frame.c:1619-1684 | to the output when a whole block fits, else to the buffer |
| FrameDecoder.Decoder.StageGetCBlock | librdkafka-1.4.2/src/lz4frame.c:1575-1583 | a compressed block in one piece, refused for its checksum exactly when that is wrong |
| FrameDecoder.Decoder.StageStoreCBlock | librdkafka-1.4.2/src/lz4frame.c:1585-1601 | a compressed block in pieces, refused for its checksum exactly when that is wrong |
| FrameDecoder.Decoder.StageFlushOut | librdkafka-1.4.2/src/lz4frame.c:1686-1705 | a waiting block, as far as there is room |
| FrameDecoder.Decoder.StageGetSuffix | librdkafka-1.4.2/src/lz4frame.c:1707-1742 | an error exactly when a size was given and the output of the frame does not have it, modulo 2^64, or the next four bytes are not those of its hash; the end of a frame that is complete |
| FrameDecoder.Decoder.StageStoreSuffix | librdkafka-1.4.2/src/lz4frame.c:1724-1754 | the content checksum in pieces: an error exactly when its four bytes are not those of the hash of all output of the frame, and the end of it otherwise |
| FrameDecoder.Decoder.CheckSuffix | librdkafka-1.4.2/src/lz4frame.c:1742-1753 | the comparison with it, and that the frame is complete |
| FrameDecoder.Decoder.StageGetSFrameSize | librdkafka-1.4.2/src/lz4frame.c:1756-1766 | the size of a skippable frame in one piece |
| FrameDecoder.Decoder.StageStoreSFrameSize | librdkafka-1.4.2/src/lz4frame.c:1767-1789 | and in several |
| FrameDecoder.Decoder.StageSkip | librdkafka-1.4.2/src/lz4frame.c:1791-1801 | skipping |
| FrameDecoder.Decoder.Run | librdkafka-1.4.2/src/lz4frame.c:1395-1803 | the state machine ends, with the same guarantees from the first stage to the last, and has taken exactly the input it reports |
| FrameDecoder.Decoder.AskedWithin | librdkafka-1.4.2/src/lz4frame.c:1595-1599 | what the decoder asks for in a frame is within what is left of it, but for 3 bytes in a skippable frame and the checksum of a block set aside |
| FrameDecoder.Decoder.Preserve | librdkafka-1.4.2/src/lz4frame.c:1805-1836 | unless the output is stable, no history is left in the caller's memory, and the dictionary still ends with the output |
| FrameDecoder.Decoder.Decompress | librdkafka-1.4.2/src/lz4frame.c:1371-1840 | for a valid frame: never an error; the output goes on with the content and the bytes consumed with the frame; 0 exactly at its end; otherwise all input is used, or all room filled with more of it needed, and the hint stays within the frame but for two exceptions. For every input: 0 only when all bytes taken since the last frame are a complete one, with right checksums and sizes, whose blocks mean the output; only the offered buffer and the decoder's own are written, and the caller's memory is relied on only where it was before or for stable output of this call, for the same bytes of the output, and only for the last 64 KB of it. Any output buffer will do that the decoder does not rely on and that does not start right behind a dictionary filling its own |
| FrameDecoder.Decoder.ReliesOnLast | librdkafka-1.4.2/src/lz4frame.c:1291-1336 | what the decoder relies on in the caller's memory are at most the last 64 KB of the output, each byte in its place |
| FrameDecoder.Decoder.CallerWrites | librdkafka-1.4.2/src/lz4frame.c:1805-1836 | between calls the caller may write anywhere in its memory except to stable output within the last 64 KB |
| FrameEncoder.BoundCovers | librdkafka-1.4.2/src/lz4frame.c:324-349 | the bound is as much as the blocks and the end of the frame can take exactly when the number of blocks fits in 32 bits |
| FrameEncoder.UncountedBlocks | librdkafka-1.4.2/src/lz4frame.c:338-344 | for 2^32 blocks of 64 KB it asks for the end of the frame only |
| Incompressible.BlockNotShorter | librdkafka-1.4.2/src/lz4frame.c:746-757 | for content in which no four bytes recur within the reach of an offset, of which there is some of every size, no block that decodes to it is shorter than it |
| Incompressible.CostReached | librdkafka-1.4.2/src/lz4frame.c:324-349 | nor is any chain of blocks for it shorter than the most that content of its size can cost |
| Incompressible.WorstUpdate | librdkafka-1.4.2/src/lz4frame.c:823-925 | the first update of a frame, flushing automatically, with such a source of any size writes exactly that much, and keeps room for the end of the frame within the bound exactly when the number of blocks fits in 32 bits |
| FrameEncoder.BoundForAll | librdkafka-1.4.2/src/lz4frame.c:726-729 | LZ4F_compressBound is enough whatever amount is buffered |
| FrameEncoder.EndWithin | librdkafka-1.4.2/src/lz4frame.c:324-349 | the bound for no input is exactly what flushing and ending can take |
| FrameEncoder.Encoder.constructor | librdkafka-1.4.2/src/lz4frame.c:536-547 | an encoder before any frame |
| FrameEncoder.Encoder.OneShot | librdkafka-1.4.2/src/lz4frame.c:429-452 | the context of the one-call form, whose buffer does not exist |
| FrameEncoder.Encoder.PrepareBuffer | librdkafka-1.4.2/src/lz4frame.c:641-659 | the buffer a frame needs |
| FrameEncoder.Encoder.WriteHeader | librdkafka-1.4.2/src/lz4frame.c:671-697 | the bytes of the header, field by field, are the encoding of the preferences |
| FrameEncoder.Encoder.InitStream | librdkafka-1.4.2/src/lz4frame.c:572-592 | with linked blocks the stream is reset twice, else once, and is then without history |
| FrameEncoder.Encoder.Begin | librdkafka-1.4.2/src/lz4frame.c:600-702 | refused exactly with less than 19 bytes of room; else the header is written and a frame without input or history begins |
| FrameEncoder.Encoder.CompressBlock | librdkafka-1.4.2/src/lz4frame.c:764-805 | an independent block on a stream reset for it, or a linked one, which joins the history; the block of the greedy parse exactly when it fits |
| FrameEncoder.SealBlock | librdkafka-1.4.2/src/lz4frame.c:746-760 | size field, stored data and checksum of a block |
| FrameEncoder.Encoder.MakeBlock | librdkafka-1.4.2/src/lz4frame.c:739-761 | one more valid block that holds exactly the source: the block of the greedy parse exactly when that is shorter than the source, and else the source stored; with linked blocks the source joins the history even when stored |
| FrameEncoder.Encoder.AddToBuffer | librdkafka-1.4.2/src/lz4frame.c:849-852 | input buffered behind what is there; the last 64 KB of history are left alone, wherever the dictionary lies |
| FrameEncoder.Encoder.EmitBuffer | librdkafka-1.4.2/src/lz4frame.c:953-963 | everything buffered becomes a block |
| FrameEncoder.Encoder.FillBuffer | librdkafka-1.4.2/src/lz4frame.c:845-868 | the source completes the buffered block or joins it |
| FrameEncoder.Encoder.FullBlocks | librdkafka-1.4.2/src/lz4frame.c:871-880 | full blocks straight from the source |
| FrameEncoder.Encoder.UpdateBlocks | librdkafka-1.4.2/src/lz4frame.c:845-891 | all blocks of an update, within their cost |
| FrameEncoder.Encoder.SaveHistory | librdkafka-1.4.2/src/lz4frame.c:807-812 | the history moves to the start of the buffer |
| FrameEncoder.Encoder.PreserveDict | librdkafka-1.4.2/src/lz4frame.c:893-902 | history in an unstable source is saved; the saved size is never 0 |
| FrameEncoder.Encoder.KeepRoom | librdkafka-1.4.2/src/lz4frame.c:904-910 | without automatic flushing, the buffer has room for one more block |
| FrameEncoder.Encoder.BufferRest | librdkafka-1.4.2/src/lz4frame.c:912-918 | what is left of the source is buffered |
| FrameEncoder.Encoder.Update | librdkafka-1.4.2/src/lz4frame.c:823-925 | refused exactly outside a frame or below the bound; else all of the source is taken, blocks and buffer together hold all input, what is written goes on with the frame, and room for its end is left as long as the blocks can be counted; afterwards the caller's memory is relied on only where it was before or in a stable source, for the same bytes of the input. The source may not start where the dictionary in use does and give a first block long enough for a match to be miscounted |
| FrameEncoder.Encoder.Flush | librdkafka-1.4.2/src/lz4frame.c:936-972 | everything buffered is written, refused exactly when the room is less than it asks for |
| FrameEncoder.WrappedTotal | librdkafka-1.4.2/src/lz4frame.c:1012-1015 | 2^64 + 1 bytes pass for the one byte promised, and no frame with that header holds them |
| FrameEncoder.Encoder.End | librdkafka-1.4.2/src/lz4frame.c:984-1018 | never short of room with the bound's; refused exactly when the promised size differs modulo 2^64; else all bytes since the beginning are one valid frame whose content is all input exactly when no size was promised or the input is shorter than 2^64 |
| FrameEncoder.Encoder.CallerWrites | librdkafka-1.4.2/src/lz4frame.c:893-902 | between calls the caller may write anywhere in its memory except to the last 64 KB of history where they are in a stable source |
| FrameEncoder.Encoder.ReliesOnLast | librdkafka-1.4.2/src/lz4frame.c:893-902 | what the encoder relies on in the caller's memory are at most the last 64 KB of what is in blocks, each byte in its place |
| FrameEncoder.Encoder.RetakenFrom | librdkafka-1.4.2/src/lz4frame.c:871-891 | where a source starts with the dictionary in use, and is long enough for a match to be miscounted, the last input lies from there on, byte by byte, wherever that is the caller's memory |
| FrameEncoder.Encoder.InBuffer | librdkafka-1.4.2/src/lz4frame.c:855-868 | a block made in the buffer never starts where the dictionary does, unless it is too short for harm |
| FrameEncoder.OptimalSizeId | librdkafka-1.4.2/src/lz4frame.c:304-317 | the smallest block size that holds the source in one block, up to the one requested |
| FrameEncoder.SameFrameBound | librdkafka-1.4.2/src/lz4frame.c:351-361 | choosing a smaller block size does not change the bound |
| FrameEncoder.Encoder.WholeFrame | librdkafka-1.4.2/src/lz4frame.c:403-417 | begin, update and end in a row never run short of the room of LZ4F_compressFrameBound, as long as the blocks can be counted, or of the room the blocks can take |
| FrameEncoder.CompressFrame | librdkafka-1.4.2/src/lz4frame.c:373-418 | succeeds exactly with the room LZ4F_compressFrameBound asks for, writes no more than that as long as the blocks can be counted, and the result is a valid frame that holds the source |
| Properties.Measure | src/kafkatools_producer.c:294-306 | the count and the packed size of the wanted properties, stopping at 256 |
| Properties.SelectedIs | src/kafkatools_producer.c:294-347 | without a section everything is selected, and with one exactly the pairs of that section, each as often as it is there |
| Properties.SelectedJoins | src/kafkatools_producer.c:294-347 | and in the order of the file |
| Properties.Fill | src/kafkatools_producer.c:319-347 | whatever the second pass finds, nothing is written past the measured size; it succeeds exactly when what it finds packs to that size |
| Properties.ReadConf | src/kafkatools_producer.c:280-355 | which of the results is returned exactly when, and the buffer with its final terminator |
| Properties.StringLength | src/kafkatools_producer.c:367-375 | strlen |
| Properties.Retrieve | src/kafkatools_producer.c:358-388 | the strings in turn as names and values with NULL at the end, failing exactly when the last ends past the given size |
| Properties.PackedStrings | src/kafkatools_producer.c:319-375 | the strings of a packed list are found where they were put |
| Properties.Retrievable | src/kafkatools_producer.c:366-382 | a packed list of k pairs, with the null byte behind it, has 2n strings exactly for n up to k |
| Properties.CountTooLarge | src/kafkatools_producer.c:294-354 | two pairs found first and one of the same packed size second: the count is 2, and the buffer ends before the third string |

## Left out

- The high-compression codec (lz4hc.c), dictionaries loaded or attached before the first block (LZ4_loadDict, LZ4_attach_dictionary, LZ4F_CDict, LZ4F_decompress_usingDict), and LZ4_decompress_safe_continue: further ways to a history.
- LZ4_decompress_fast and the other functions that trust their input.
- The byPtr table, big-endian reads, 32-bit words, and the De Bruijn form of the bit count: variants of the same logic.
- XXH32, the hash function of the match finder, and the encoding of the CRC instructions: arbitrary functions or reference steps.
- The value of a decoding error, which encodes a position.
- Decompression in place, and any other overlap of compressed input with output: the compressed input is a separate buffer.
- Allocation failure other than of the decoder's output buffer, reuse of a context after an error, and LZ4F_compressEnd without a frame begun.
- Block size identifiers outside the enumeration, which LZ4F_compressBegin does not reject.
- Views of the hash table as 16-bit and 32-bit cells share one table of numbers; LZ4_prepareTable clears it when the kind changes.
- The configuration parser behind property packing, and everything else in the wrapper and in librdkafka.
- Properties.Retrieve: asks that the buffer hold the strings it is to find, as strlen does; `Properties.RoundTrip` says exactly when it does.
- FrameEncoder.Encoder.Update: once the blocks cannot be counted in 32 bits, asks for the room they can take, where the source writes past the end of less.
- FrameEncoder.CompressFrame: the same.
- FrameRuns.EncodeInPieces: also excludes a source that starts inside such a stretch, where the dictionary in use starts in front of it or has lost that part; `FrameEncoder.Encoder.Update` excludes it only when the dictionary starts there.
- BlockApi.CompressFast: asks for a steady acceleration; what the source does with others is followed only to the first wrong match.
- BlockDecoder.DecompressSafe: which of the blocks that break only the restrictions on the end of a block it accepts, which differs from path to path, and what it outputs for an offset of 0.
- BlockDecoder.DecompressSafePartial: says nothing about invalid blocks, and valid blocks of 2^32 bytes and more, which no LZ4 encoder makes, may have lengths that wrap.
- BlockDecoder.DecompressSafeUsingDict: a dictionary longer than 64 KB is passed on as its last 64 KB, which is all that its address and the test of its size can make a difference to.
