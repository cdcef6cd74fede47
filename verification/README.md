# MinLZ in Dafny

A model of the MinLZ compressor: the LZ77 block codec, the framed stream format, the seek index, the
multi-threaded pipelines and the CRC, with proofs of what they promise.

- **Block codec** (`BlockSpec`, `Emit`, `Encoding`, `EncodeL1`, `EncodeL2`, `EncodeL3`, `Decode`, `Block`).
  `BlockSpec` gives the tag grammar a meaning: `Run` interprets encoded bytes as a state of output and last
  offset. Every emitter is proved to write bytes with the intended meaning; every encoder keeps "the bytes so
  far run to a prefix of the input, with the last offset equal to `repeat`" for arbitrary hash functions; the
  two-loop decoder is proved to compute exactly the meaning.
- **CRC** (`Crc`). Slice-by-8 and the three-way fold refine the bit-serial definition of section 12.1 of RFC 3720;
  the stored checksum detects every change confined to four bytes in a row.
- **Seek index** (`IndexTable`, `IndexWire`, `Index`, `IndexStream`, `IndexReach`, `IndexSeek`). Thinning and spacing,
  the coded form with its adaptive predictor, the object that updates itself in place, and building an index from
  chunk headers, with what it reaches and what a reader makes of it on streams written by anyone.
- **Streams** (`StreamFormat`, `StreamSpec`, `StreamRoundTrip`, `Chunking`, `StreamWriter`, `Sessions`,
  `StreamReader`, `StreamSeek`, `StreamDamage`, `Fixtures`). `Chunk` is the meaning of one chunk, `Drain` of a whole
  input. Writer, reader and seeker are classes with the source's fields; all of them are tied to "the content is a
  byte sequence and I am at this position of it". `StreamDamage` says what becomes of changed and truncated streams;
  `Fixtures` ties the formats to bytes made by another implementation.
- **Pipelines** (`Pipeline`, `MtWriter`, `MtReader`). One step system for dispatcher, workers with one-slot queues,
  bounded order queue and consumer; safety, progress and termination over all interleavings, and its use by the
  multi-threaded writer and reader.

Where code and documentation differ, the model follows the code. `add` is documented to keep the index sorted
ascending and indeed only refuses descending compressed offsets, so equal ones can be stored although loading
refuses them (`IndexWire.EqualCompressedRefused`). A reader with a limit of, say, 5000 bytes refuses a stream written
with block size 5000, because the header can only say 8192 (`StreamRoundTrip.NegotiationRefused`).

A reader keeps its first error and returns it again, but not if the input breaks off in the middle of a chunk header:
after the end of a stream the next read then reports a clean end (`StreamReader.ErrorForgotten`; the exact condition is
in the contract of `ReadToEnd`).

`dafny verify dfyconfig.toml` checks the project.

## Model

| member | source | states |
|---|---|---|
| `EncodeL1.EncodeBlock` | crates/minlz/src/block/encode_l1.rs:30-42 | for every input up to 8 MiB and any hash functions, a non-empty result stays within the space `max_encoded_len` leaves and decodes to exactly the input; a run of one byte of 32 bytes or more always has one, of at most 14 bytes |
| `EncodeL1.EncodeVariant` | crates/minlz/src/block/encode_l1.rs:44-424 | the same for each of the three instances (big table, 64K, small 64K): the loop keeps "`dst[..d]` runs to `src[..next_emit]` with last offset `repeat`" |
| `EncodeL1.Search` | crates/minlz/src/block/encode_l1.rs:59-146 | the search loop with the repeat-ahead path: a found candidate lies before `s`, matches four bytes and is within MAX_COPY3_OFFSET; all table entries stay below the next position |
| `EncodeL1.TryCandidates` | crates/minlz/src/block/encode_l1.rs:112-146 | a candidate found for one of the three positions lies before it, matches four bytes there and is within MAX_COPY3_OFFSET; the entries recorded on the way stay below the next position |
| `EncodeL1.EmitRepeatAhead` | crates/minlz/src/block/encode_l1.rs:77-116 | the repeat found at `s + 1` with backward extension is emitted as literals and a repeat that decode to the bytes matched |
| `EncodeL1.EmitMatch` | crates/minlz/src/block/encode_l1.rs:148-188 | backward and forward extension, then literals and copy (fused where the source fuses them), decode to the extended match |
| `EncodeL1.EmitWithLiterals` | crates/minlz/src/block/encode_l1.rs:166-188 | the choice between plain, fused two-byte and fused three-byte copies keeps the decoded prefix and the capacity |
| `EncodeL1.EmitImmediateMatches` | crates/minlz/src/block/encode_l1.rs:190-240 | the immediate-match loop keeps the invariant, and hands back a position before which all table entries lie |
| `EncodeL2.EncodeBlock` | crates/minlz/src/block/encode_l2.rs:35-44 | the same for the two-table encoder, any hash functions |
| `EncodeL2.EncodeVariant` | crates/minlz/src/block/encode_l2.rs:97-341 | the outer loop of both instances keeps the encoded prefix and bails out only to an empty result |
| `EncodeL2.Search` | crates/minlz/src/block/encode_l2.rs:113-231 | the search over both tables, including the long match looked up at `s + 1` that may hit `s` itself and the bail-out that discards a found match |
| `EncodeL2.TryCandidates` | crates/minlz/src/block/encode_l2.rs:203-225 | a candidate found at `s` or `s + 1` lies before it, matches four bytes there and is within MAX_COPY3_OFFSET where that limits; table entries stay below the next position |
| `EncodeL2.EmitRepeatAhead` | crates/minlz/src/block/encode_l2.rs:140-205 | the repeat path with its own re-indexing loop |
| `EncodeL2.IndexBetween` | crates/minlz/src/block/encode_l2.rs:183-200 | two-ended re-indexing inserts only positions below the next `s` |
| `EncodeL2.IndexConsumed` | crates/minlz/src/block/encode_l2.rs:310-331 | re-indexing after an emitted match keeps every entry of both tables below the next `s` |
| `EncodeL2.EmitMatch` | crates/minlz/src/block/encode_l2.rs:233-309 | extension in both directions and emission decode to the extended match |
| `EncodeL3.EncodeBlock` | crates/minlz/src/block/encode_l3.rs:96-539 | the emitted bytes decode to the input whatever candidate is chosen and whatever the hashes return; the loop ends although `s` can move backwards; a run of one byte of 32 bytes or more never makes it give up and takes at most 14 bytes |
| `EncodeL3.BestAt` | crates/minlz/src/block/encode_l3.rs:115-434 | the match search returns only valid matches: entries ahead of `s` are rejected by the guard, three-byte matches use the live repeat offset |
| `EncodeL3.EmitBest` | crates/minlz/src/block/encode_l3.rs:437-505 | emitting a valid match, also as the truncated eleven-byte fused copy, advances the emitted prefix and leaves the decoder at the match offset |
| `EncodeL3.MatchAt` | crates/minlz/src/block/encode_l3.rs:566-648 | a candidate becomes no match or a valid one, extended both ways |
| `EncodeL3.MatchAtRepeat` | crates/minlz/src/block/encode_l3.rs:652-732 | the same at the repeat offset, where three bytes suffice |
| `EncodeL3.ThreeByteMatch` | crates/minlz/src/block/encode_l3.rs:652-732 | three equal bytes joined with their extensions are one match at the repeat offset |
| `EncodeL3.BestOf` | crates/minlz/src/block/encode_l3.rs:734-756 | the better of two matches is one of them |
| `EncodeL3.PackedEntry` | crates/minlz/src/block/encode_l3.rs:69-87 | packing a position in front of an entry and unpacking it gives the new and the previous position |
| `Encoding.EncodedDecodes` | crates/minlz/src/block/encode_l1.rs:44-242 | an output that runs to the whole input decodes to it |
| `Encoding.EncodedCopy` | crates/minlz/src/block/encode_l1.rs:148-188 | appending bytes that mean "these literals, then this copy" along a match advances the encoded prefix |
| `Encoding.ExtendBack` | crates/minlz/src/block/encode_l1.rs:150-156 | backward extension keeps the distance and only adds equal bytes |
| `Encoding.ExtendWords` | crates/minlz/src/block/encode_l1.rs:158-175 | word-wise forward extension only adds equal bytes and stops at the first difference or near the end |
| `Encoding.ExtendAll` | crates/minlz/src/block/encode_l2.rs:246-270 | the same with the byte-wise tail up to the end of the input |
| `Encoding.FirstDifference` | crates/minlz/src/block/match_len.rs:29-47 | the word comparison finds the first differing byte |
| `Encoding.EmitRemainder` | crates/minlz/src/block/encode_l1.rs:226-242 | the final literals complete the block within capacity, or the block is given up |
| `Encoding.GuardedEmission` | crates/minlz/src/block/encode_l1.rs:89-91 | an emission behind the output guard never exceeds what it consumed in small inputs, so the next guard is sound |
| `Encoding.UnguardedEmission` | crates/minlz/src/block/encode_l1.rs:172-199 | nor does a fused emission that is not guarded |
| `Encoding.RemainderFits` | crates/minlz/src/block/encode_l2.rs:334-341 | under its guard the remainder fits the body capacity |
| `Decode.MinlzDecode` | crates/minlz/src/block/decode.rs:44-391 | the two-loop decoder accepts exactly what the block grammar accepts, yields exactly its output, and never writes past `dlen + 16` |
| `Decode.FastLoop` | crates/minlz/src/block/decode.rs:50-217 | the loop with 16-byte loads and overshooting stores: its finished prefix is the grammar's, and it fails only on inputs the grammar rejects |
| `Decode.TailLoop` | crates/minlz/src/block/decode.rs:219-391 | the bounds-checked loop decides acceptance exactly and writes only `dst[..dlen]` |
| `Decode.FastPathAgrees` | crates/minlz/src/block/decode.rs:44-391 | the two-loop decoder and the tail loop alone agree on acceptance and on the bytes |
| `Decode.FastFields` | crates/minlz/src/block/decode.rs:59-217 | the fields the fast loop takes from 16 readable bytes are those of the tag at that position |
| `Decode.TailFields` | crates/minlz/src/block/decode.rs:219-385 | the fields the tail loop takes, with its own bounds checks, are those of the tag, and it fails exactly where no complete tag is |
| `Decode.TailFused` | crates/minlz/src/block/decode.rs:319-385 | the fields of a fused copy are those of the tag, and it fails exactly where no complete tag is |
| `Decode.CopyShortLiteral` | crates/minlz/src/block/decode.rs:400-421 | the 16-byte store leaves the finished prefix extended by the literal, and nothing past its limit |
| `Decode.ForwardCopyInto` | crates/minlz/src/block/decode.rs:432-441 | the byte-wise copy is the overlapping forward copy |
| `Decode.FastCopy` | crates/minlz/src/block/decode.rs:180-217 | the copy with overshooting stores equals the overlapping forward copy |
| `BlockSpec.RunConcat` | crates/minlz/src/block/decode.rs:44-391 | running two encoded pieces in a row is running the second after the first |
| `BlockSpec.SameParse` | crates/minlz/src/block/decode.rs:59-385 | a complete tag parses the same whatever follows it |
| `BlockSpec.CopyAlongMatch` | crates/minlz/src/block/decode.rs:432-441 | copying along a match of the input extends the decoded prefix by the matched bytes, overlap included |
| `Emit.RunLiteral` | crates/minlz/src/block/emit.rs:33-82 | a literal's bytes append exactly the literal |
| `Emit.RunRepeat` | crates/minlz/src/block/emit.rs:84-122 | a repeat's bytes copy from the last offset |
| `Emit.RunCopy` | crates/minlz/src/block/emit.rs:211-249 | a copy's bytes, chained where one tag cannot hold the length, copy exactly the length, for all offsets and lengths up to 2^24 |
| `Emit.RunCopyLits2` | crates/minlz/src/block/emit.rs:251-283 | the fused two-byte copy appends its literals and copies |
| `Emit.RunCopyLits3` | crates/minlz/src/block/emit.rs:369-375 | the fused three-byte copy appends its literals and copies |
| `Emit.EmitLiteral` | crates/minlz/src/block/emit.rs:33-82 | writes exactly those bytes at the position, returns their number, and leaves the rest of the buffer |
| `Emit.EmitRepeat` | crates/minlz/src/block/emit.rs:84-122 | writes exactly the repeat's bytes at the position, returns their number, and leaves the rest of the buffer |
| `Emit.EncodeCopy2` | crates/minlz/src/block/emit.rs:124-164 | writes exactly the two-byte copy, returns its size, and leaves the rest of the buffer |
| `Emit.EncodeCopy3` | crates/minlz/src/block/emit.rs:166-209 | writes exactly the three-byte copy, returns its size, and leaves the rest of the buffer |
| `Emit.EmitCopy` | crates/minlz/src/block/emit.rs:211-249 | writes exactly the general copy, returns its size, and leaves the rest of the buffer |
| `Emit.EmitCopyLits2` | crates/minlz/src/block/emit.rs:251-283 | writes exactly the fused two-byte copy, returns its size, and leaves the rest of the buffer |
| `Emit.EmitCopyLits3` | crates/minlz/src/block/emit.rs:369-375 | writes exactly the fused three-byte copy, returns its size, and leaves the rest of the buffer |
| `Emit.CopySizeExact` | crates/minlz/src/block/emit.rs:306-367 | the size predictors for repeats and copies are exact |
| `Emit.LiteralSizeExact` | crates/minlz/src/block/emit.rs:289-304 | the size predictor for literals never under-counts; it over-counts by one at length 65565 and nowhere else |
| `Block.AppendEncoded` | crates/minlz/src/block/mod.rs:82-114 | too large inputs are refused; for Fastest and Balanced decoding what was appended gives the input, within `max_encoded_len`; for Smallest exactly when the body did not outgrow the input; a long run of one byte takes at most 19 bytes at every level |
| `Block.AppendEncodedChunkBody` | crates/minlz/src/block/mod.rs:275-302 | a chunk body is appended only if smaller than the input, and then it decodes to it, at every level; a run of one byte of 32 bytes or more always gets one, of at most 18 bytes |
| `Block.TryEncode` | crates/minlz/src/block/mod.rs:120-146 | a block is appended only if smaller than the input, and then it decodes to it; a long run of one byte always gets one |
| `Block.AppendDecoded` | crates/minlz/src/block/mod.rs:160-180 | appends what the block means, or reports its error and appends nothing |
| `Block.AppendDecodedChunkBody` | crates/minlz/src/block/mod.rs:306-319 | the same for a stream-chunk body |
| `Block.DecodeChunkBody` | crates/minlz/src/block/mod.rs:306-348 | a decoded chunk body has the length its header declares |
| `Block.CompressedBlock` | crates/minlz/src/block/mod.rs:210-250 | `parse_header` accepts a compressed body exactly when it is not longer than the input |
| `Block.CompressedChunk` | crates/minlz/src/block/mod.rs:329-348 | the chunk form of a body not longer than the input decodes to it |
| `Block.EncodeUncompressed` | crates/minlz/src/block/mod.rs:252-260 | the stored forms of the empty and the non-empty block |
| `Block.UncompressedBlock` | crates/minlz/src/block/mod.rs:210-250 | the stored forms decode to the input |
| `Block.AnyBlock` | crates/minlz/src/block/mod.rs:210-250 | what the decoder makes of any declared length and any body, error by error |
| `Block.NoBlock` | crates/minlz/src/block/mod.rs:210-222 | nothing but a zero byte starts a block |
| `Bytes.UvarintRoundTrip` | crates/minlz/src/block/format.rs:80-111 | an encoded 64-bit value reads back as itself wherever it stands, and the reader stops right after it |
| `Bytes.PutUvarint` | crates/minlz/src/block/format.rs:80-86 | the encoding loop appends the encoding |
| `Bytes.GetUvarint` | crates/minlz/src/stream/format.rs:135-152 | the decoding loop returns the decoded value and position, or nothing when truncated or over 64 bits |
| `Bytes.UvarintLength` | crates/minlz/src/block/format.rs:69-77 | how many bytes the lengths of blocks take, which `max_encoded_len` relies on |
| `Crc.UpdateTable` | crates/minlz/src/stream/crc.rs:92-114 | slice-by-8 with its byte-wise tail equals the bit-serial CRC32C for every state and data |
| `Crc.UpdateFolded` | crates/minlz/src/stream/crc.rs:195-244 | the three 1024-byte lanes folded with `shift_crc` equal the bit-serial CRC32C |
| `Crc.CrcConcat` | crates/minlz/src/stream/crc.rs:79-90 | updating over two pieces is updating over their concatenation |
| `Crc.StepsLinear` | crates/minlz/src/stream/crc.rs:36-50 | bit steps are linear over exclusive or |
| `Crc.ThreeWayFold` | crates/minlz/src/stream/crc.rs:204-244 | three lanes started independently combine to the sequential state |
| `Crc.BuildTable` | crates/minlz/src/stream/crc.rs:36-50 | the byte table holds eight bit steps of every byte |
| `Crc.BuildSliceTable` | crates/minlz/src/stream/crc.rs:120-141 | the eight slice tables hold the steps over the bytes behind |
| `Crc.BuildShiftTable` | crates/minlz/src/stream/crc.rs:161-181 | the shift tables hold the steps over 1024 zero bytes |
| `Crc.SliceStepCorrect` | crates/minlz/src/stream/crc.rs:97-110 | one slice-by-8 round equals eight byte steps |
| `Crc.ShiftCrcCorrect` | crates/minlz/src/stream/crc.rs:186-191 | `shift_crc` is 8192 bit steps |
| `Crc.MaskInvertible` | crates/minlz/src/stream/crc.rs:309-317 | masking loses nothing |
| `Crc.MaskedCrc32c` | crates/minlz/src/stream/crc.rs:74-90 | the checksum computed with the real tables, on either path, unmasks to the CRC32C of the data and is the one stored in chunks |
| `Crc.ChecksumUnmasked` | crates/minlz/src/stream/crc.rs:309-317 | for every data, the stored checksum unmasks to its CRC32C |
| `Crc.BitStepInjective` | crates/minlz/src/stream/crc.rs:36-50 | no two registers go to the same one |
| `Crc.UpdateInjective` | crates/minlz/src/stream/crc.rs:92-114 | registers that differ stay different, whatever comes after |
| `Crc.BurstDetected` | crates/minlz/src/stream/crc.rs:309-317 | two inputs of one length that differ only within four bytes in a row have different checksums, wherever that is |
| `Crc.CheckZeros` | crates/minlz/src/stream/crc.rs:341-363 | the check value of section B.4 of RFC 3720 for 32 zero bytes, and its masked form |
| `Crc.CheckDigits` | crates/minlz/src/stream/crc.rs:341-363 | the usual check value, that of "123456789", and its masked form |
| `IndexTable.FinishedSpacing` | crates/minlz/src/index.rs:207-308 | for every stream a writer produces: no `add` fails, consecutive entries of the reduced index lie in [est, 2 est), est is the initial spacing or at most 2 total / 65535, and every offset is less than 2 est after the entry found for it |
| `IndexTable.StreamSpacing` | crates/minlz/src/index.rs:207-232 | the same for the unreduced table through all calls of `add` and `reduce_light` |
| `IndexTable.AddTracks` | crates/minlz/src/index.rs:207-232 | one `add` keeps the spacing and reach, and doubles est only once the stream is long enough |
| `IndexTable.ReduceTracks` | crates/minlz/src/index.rs:268-287 | `reduce` keeps the spacing and reach and ends below the limit |
| `IndexTable.ThinIsEveryOther` | crates/minlz/src/index.rs:292-308 | on a spaced table `reduce_light` drops exactly every other entry |
| `IndexTable.EveryOtherSpaced` | crates/minlz/src/index.rs:292-308 | which doubles both spacing bounds |
| `IndexTable.FindIsNear` | crates/minlz/src/index.rs:241-264 | the entry found lies at or before the offset and less than two spacings before it |
| `Index.Index.Reset` | crates/minlz/src/index.rs:176-186 | the doubling loop computes the initial spacing; totals and entries are cleared |
| `Index.Index.Add` | crates/minlz/src/index.rs:207-232 | the new table is that of the specification, or the error with nothing changed; the entries stay sorted |
| `Index.Index.Find` | crates/minlz/src/index.rs:241-264 | the linear scan and the bisection both return the last entry at or before the offset |
| `Index.PartitionPoint` | crates/minlz/src/index.rs:245-248 | bisection finds the number of entries at or before the offset |
| `Index.Index.ReduceLight` | crates/minlz/src/index.rs:292-308 | the in-place compaction keeps exactly the thinned entries |
| `Index.Index.KeepEvery` | crates/minlz/src/index.rs:278-287 | the in-place compaction of `reduce` keeps exactly every k-th entry |
| `Index.Index.Reduce` | crates/minlz/src/index.rs:268-287 | the new table is that of the specification |
| `Index.Index.AppendTo` | crates/minlz/src/index.rs:323-394 | appends exactly the chunk for the reduced table and records the totals; totals past `i64::MAX` are refused and change nothing |
| `Index.Index.Load` | crates/minlz/src/index.rs:400-516 | returns what the parser specification returns, error by error, with the tail; on success the entries are sorted |
| `Index.Index.LoadStream` | crates/minlz/src/index.rs:520-536 | loads the chunk found through the trailer at the end of the source |
| `IndexWire.IndexRoundTrip` | crates/minlz/src/index.rs:323-516 | `load` of what `append_to` wrote followed by any bytes returns the same totals, spacing and entries and those bytes, exactly when the uncompressed total was known and both offsets strictly ascend; otherwise it is refused |
| `IndexWire.EqualCompressedRefused` | crates/minlz/src/index.rs:222-224 | a table `add` accepts whose serialised form `load` refuses: two entries at one compressed offset |
| `IndexWire.CompressedRoundTrip` | crates/minlz/src/index.rs:372-500 | decoder and encoder predictors agree at every entry, and decoding goes on exactly while the compressed offsets ascend |
| `IndexWire.UncompressedRoundTrip` | crates/minlz/src/index.rs:359-465 | the uncompressed offsets read back, whether written or implied, exactly while they ascend |
| `IndexWire.PredictorInRange` | crates/minlz/src/index.rs:372-383 | the predictor is never negative and never leaves the signed range |
| `IndexWire.VarintRoundTrip` | crates/minlz/src/index.rs:787-815 | signed varints read back |
| `IndexWire.RemoveAfterRestore` | crates/minlz/src/index.rs:691-737 | removing after restoring headers gives the payload back exactly for non-empty payloads whose length fits |
| `IndexWire.StrippedChunkRestores` | crates/minlz/src/index.rs:691-737 | restoring after removing is the identity on every chunk `append_to` writes |
| `IndexWire.TailFindsIndex` | crates/minlz/src/index.rs:520-536 | an index appended to anything is found from the end |
| `IndexWire.PayloadLength` | crates/minlz/src/index.rs:323-394 | an index of at most 65536 entries fits the three-byte chunk length |
| `Index.WiresFit` | crates/minlz/src/index.rs:352-383 | every coded value of a small sorted table fits the signed varints |
| `StreamFormat.IndicatorInverse` | crates/minlz/src/stream/format.rs:71-88 | the indicator decodes to the smallest power of two that holds the block size |
| `StreamFormat.Chunk` | crates/minlz/src/stream/reader.rs:436-458 | a chunk consumes at least its header and no more than the input |
| `StreamSpec.ReadBlock` | crates/minlz/src/stream/reader.rs:510-570 | a written block chunk reads back as its block and advances the offset |
| `StreamSpec.ReadUser` | crates/minlz/src/stream/reader.rs:620-642 | a user chunk is passed by, its body being what was written, except that ids 0xc0 to 0xfd without a callback are refused |
| `StreamSpec.ReadReserved` | crates/minlz/src/stream/reader.rs:620-642 | padding and index chunks are skipped |
| `StreamSpec.ReadEof` | crates/minlz/src/stream/reader.rs:572-594 | the EOF chunk with the right total is accepted |
| `StreamSpec.ReadHeader` | crates/minlz/src/stream/reader.rs:596-619 | the identifier is accepted exactly when its negotiated size is within the limit, from any state |
| `StreamSpec.DrainItems` | crates/minlz/src/stream/reader.rs:427-464 | reading written chunks delivers their blocks and nothing else |
| `StreamSpec.DrainStream` | crates/minlz/src/stream/reader.rs:427-464 | a whole stream delivers its content, then whatever follows it |
| `StreamSpec.UserChunksOfItems` | crates/minlz/src/stream/reader.rs:621-644 | a reader meets exactly the user chunks written, each with its body and after the content before it |
| `StreamSpec.HeardAreTaken` | crates/minlz/src/stream/reader.rs:621-644 | callbacks are given the user chunks met that have one, in order |
| `StreamRoundTrip.DrainFinished` | crates/minlz/src/stream/writer.rs:315-356 | a finished stream with padding and index delivers its content, then whatever follows it |
| `StreamRoundTrip.UserChunksOfFinished` | crates/minlz/src/stream/writer.rs:315-356 | neither padding nor the index is taken for a user chunk |
| `StreamRoundTrip.StreamsRoundTrip` | crates/minlz/src/stream/reader.rs:427-464 | any number of finished streams in a row deliver their contents in a row and end cleanly |
| `StreamRoundTrip.NegotiationRefused` | crates/minlz/src/stream/reader.rs:608-611 | otherwise the first chunk is refused, although no block may exceed the limit |
| `StreamRoundTrip.FinishedLength` | crates/minlz/src/stream/writer.rs:448-484 | the finished length, index included, is a multiple of the padding |
| `StreamRoundTrip.PaddingFits` | crates/minlz/src/stream/writer.rs:448-484 | the padding is nothing or one chunk whose length fits, and completes the multiple |
| `StreamRoundTrip.CallsAreBlockStarts` | crates/minlz/src/stream/writer.rs:384-436 | the `add` calls of a writer are the starts of its blocks, strictly ascending in both coordinates |
| `StreamRoundTrip.FinalTableSpaced` | crates/minlz/src/stream/writer.rs:320-345 | the finished table: spacing, growth and reach |
| `StreamRoundTrip.FinalTableFacts` | crates/minlz/src/stream/writer.rs:320-345 | the finished index: block starts, strictly ascending, spaced, near every offset, and small enough to be coded |
| `StreamRoundTrip.WriterIndexLoads` | crates/minlz/src/stream/writer.rs:320-345 | the index a writer produces loads back with its totals and entries |
| `Chunking.AcceptKeeps` | crates/minlz/src/stream/writer.rs:502-539 | a `write` keeps blocks within the limit and all bytes in order |
| `Chunking.FlushKeeps` | crates/minlz/src/stream/writer.rs:367-380 | a flush keeps all bytes in order and empties the buffer |
| `Chunking.AcceptFills` | crates/minlz/src/stream/writer.rs:502-539 | a buffering `write` adds only blocks of exactly the block size, and items once added stay |
| `Chunking.FlushFills` | crates/minlz/src/stream/writer.rs:367-393 | a flush adds blocks of exactly the block size but for the last one |
| `Chunking.UserKeeps` | crates/minlz/src/stream/writer.rs:253-280 | a user chunk changes no data; that it keeps its id, body and place is `Sessions.SessionUsers` |
| `Chunking.WholeBlocks` | crates/minlz/src/stream/writer.rs:519-528 | whole blocks taken straight from the input are cut as through the buffer |
| `StreamWriter.Writer.Write` | crates/minlz/src/stream/writer.rs:502-539 | all bytes are accepted; items and buffer become those of the specification, and the sink stays the encoding of the items |
| `StreamWriter.Writer.Flush` | crates/minlz/src/stream/writer.rs:543-549 | the buffer becomes a block |
| `StreamWriter.Writer.AddUserChunk` | crates/minlz/src/stream/writer.rs:253-280 | a user chunk goes after everything written; a bad id or size changes nothing; what the items then hold is `Sessions.SessionUsers` |
| `StreamWriter.Writer.EmitBlock` | crates/minlz/src/stream/writer.rs:397-436 | one block chunk, compressed if that is smaller, with the checksum of the block (`Crc.ChecksumUnmasked`) and its index entry at the right position |
| `StreamWriter.Writer.WriteBlocks` | crates/minlz/src/stream/writer.rs:383-393 | data is written as blocks of at most the block size |
| `StreamWriter.Writer.EmitEof` | crates/minlz/src/stream/writer.rs:438-446 | the EOF chunk with the total |
| `StreamWriter.Writer.EmitPadding` | crates/minlz/src/stream/writer.rs:448-484 | the padding chunk for the counted size |
| `StreamWriter.Writer.CloseInner` | crates/minlz/src/stream/writer.rs:315-356 | data, EOF, padding that leaves room for the index, then the index; returns the index bytes when asked |
| `StreamWriter.Writer.Finish` | crates/minlz/src/stream/writer.rs:287-293 | the sink holds the finished stream |
| `StreamWriter.Writer.CloseIndex` | crates/minlz/src/stream/writer.rs:298-309 | the same, returning the index, or an error if none was generated |
| `StreamWriter.IndexedAppend` | crates/minlz/src/stream/writer.rs:398-400 | adding the next block to the index cannot fail |
| `Sessions.SessionContent` | crates/minlz/src/stream/writer.rs:502-549 | however calls cut it up, the blocks of a session hold exactly what was written |
| `Sessions.SessionUsers` | crates/minlz/src/stream/writer.rs:253-280 | the user chunks among the items of a session are the (id, body) pairs of its accepted calls, ids 0x80 to 0xfd and bodies up to 0xffffff bytes, in order, each right after what was written before the call |
| `Sessions.SessionRoundTrip` | crates/minlz/src/stream/reader.rs:427-464 | a session unless stopped delivers its input and its user chunks, then whatever follows |
| `Sessions.SessionsRoundTrip` | crates/minlz/src/stream/writer.rs:315-539 | whatever writes, flushes and user chunks, block sizes, levels, padding and index: reading the sinks in a row gives the inputs in a row, unless a call adds a chunk 0xc0 to 0xfd without a callback |
| `Sessions.SkippableRoundTrip` | crates/minlz/src/stream/reader.rs:621-644 | sessions whose user chunks lie in 0x80 to 0xbf read back for every reader, with or without callbacks |
| `Sessions.SessionsStopped` | crates/minlz/src/stream/reader.rs:621-644 | the first call that adds a chunk 0xc0 to 0xfd without a callback, in any session of a row: the bytes before it come, then `Corrupt`, whatever follows |
| `Sessions.SessionsReadable` | crates/minlz/src/stream/reader.rs:621-644 | reading ends without an error exactly when no call adds such a chunk |
| `Sessions.WriteAndRead` | crates/minlz/src/stream/reader.rs:466-483 | the writer object driven by a session and the reader object reading its sink: the bytes are those written, the end is clean, and the callbacks were given the accepted user chunks that have one |
| `Sessions.RunSession` | crates/minlz/src/stream/writer.rs:315-549 | the writer object driven by a session leaves exactly the specified bytes in the sink |
| `StreamReader.Reader.FillDecoded` | crates/minlz/src/stream/reader.rs:430-464 | what it puts into the buffer is exactly what the unread chunks decode to; offsets run on; a clean end and an error are told apart |
| `StreamReader.Reader.NextChunk` | crates/minlz/src/stream/reader.rs:436-463 | one round of the loop does what the chunk means, field by field; a failed chunk sets the error, unless the input broke off in its header; callbacks get the chunk if it has one |
| `StreamReader.Reader.HandleCompressedChunk` | crates/minlz/src/stream/reader.rs:510-544 | the handler agrees with the meaning of the chunk, error by error |
| `StreamReader.Reader.HandleUncompressedChunk` | crates/minlz/src/stream/reader.rs:546-570 | the handler agrees with the meaning of an uncompressed chunk, error by error |
| `StreamReader.Reader.HandleEofChunk` | crates/minlz/src/stream/reader.rs:572-593 | the handler agrees with the meaning of an EOF chunk, with the size check against the bytes consumed |
| `StreamReader.Reader.HandleStreamIdentifier` | crates/minlz/src/stream/reader.rs:595-619 | the handler agrees with the meaning of an identifier chunk, error by error |
| `StreamReader.Reader.HandleSkippable` | crates/minlz/src/stream/reader.rs:621-644 | the handler agrees with the meaning of the chunk and hands the body to the callback for its id, if there is one |
| `StreamReader.Reader.Read` | crates/minlz/src/stream/reader.rs:467-482 | hands out the next bytes of what remains, none only at a clean end, and the error exactly when nothing is left before it |
| `StreamReader.Reader.FillBuf` | crates/minlz/src/stream/reader.rs:490-498 | shows a prefix of what remains without consuming it |
| `StreamReader.Reader.ReadToEnd` | crates/minlz/src/stream/reader.rs:466-483 | reads of any size deliver the whole content, or the bytes before the error and the error, which is kept for later reads unless the input broke off in a chunk header; the callbacks heard what the input holds for them |
| `StreamReader.ErrorForgotten` | crates/minlz/src/stream/reader.rs:436-439 | an input that breaks off in a chunk header: the first read fails, the next one reports a clean end |
| `StreamReader.Reader.Skip` | crates/minlz/src/stream/reader.rs:244-297 | on input that decodes, skipping succeeds exactly when that many bytes are left, and leaves what reading and dropping would leave, across concatenated streams |
| `StreamReader.Reader.SkipCompressedOrDecode` | crates/minlz/src/stream/reader.rs:304-346 | a sound chunk is dropped whole or decoded and entered at the right byte, and the consumed count advances by its decoded length |
| `StreamReader.Reader.SkipUncompressedOrDecode` | crates/minlz/src/stream/reader.rs:350-382 | a sound uncompressed chunk is dropped whole or entered at the right byte |
| `StreamReader.PlacedSkips` | crates/minlz/src/stream/reader.rs:225-382 | within a stream, block start plus buffer length is always the number of bytes consumed |
| `StreamSeek.SeekAndRead` | crates/minlz/src/stream/seek.rs:110-200 | for a written stream with its index (as a chunk, as bare payload, or at the end of the stream), after any reads and seeks, seeking to an offset and reading to the end yields the content from there |
| `StreamSeek.ReadSeeker.SeekUncompressed` | crates/minlz/src/stream/seek.rs:110-200 | for a target from the start, the current offset or the end: reached exactly if it lies within the content; `InvalidInput` below zero or past `i64::MAX`, `PastEnd` past the end, and then neither position nor buffer has moved; an earlier error other than the end of input is returned |
| `StreamSeek.ReadSeeker.MoveTo` | crates/minlz/src/stream/seek.rs:163-200 | the in-buffer path and the index path lead to the same place |
| `StreamSeek.ReadSeeker.Reopen` | crates/minlz/src/stream/seek.rs:157-161 | after the end of the stream the identifier is read again without losing the place |
| `StreamSeek.ReadSeeker.Jump` | crates/minlz/src/stream/seek.rs:171-200 | the index entry and the skip from it lead to the offset |
| `StreamSeek.ReadSeeker.ReadAt` | crates/minlz/src/stream/seek.rs:225-237 | returns the bytes at the offset, fewer only at the end |
| `StreamSeek.ReadSeeker.Wander` | crates/minlz/src/stream/seek.rs:110-200 | after any reads and seeks, a seek and a read to the end yield the content from there |
| `StreamSeek.FinishedSeekable` | crates/minlz/src/stream/seek.rs:171-190 | every entry of a writer's index is a true boundary of the stream, and the stream opens at its start |
| `StreamSeek.LoadIndex` | crates/minlz/src/stream/seek.rs:67-92 | the three shapes of index bytes and the index at the end of the source |
| `StreamSeek.WriterIndexFound` | crates/minlz/src/stream/seek.rs:67-92 | a writer's index is found when handed over framed or bare, and at the end of its stream |
| `StreamSeek.BareLooksBare` | crates/minlz/src/stream/seek.rs:271-280 | a bare payload with a spacing writers use is never taken for a framed chunk |
| `Pipeline.StepKeeps` | crates/minlz/src/stream/mt_writer.rs:257-507 | every step of dispatcher, workers and consumer keeps: no slot is forgotten, results are written in order |
| `Pipeline.Progress` | crates/minlz/src/stream/mt_writer.rs:439-507 | every reachable unfinished state has a possible step, also with all queues full and after the consumer gave up |
| `Pipeline.StuckIsTerminal` | crates/minlz/src/stream/mt_writer.rs:378-405 | a run that cannot go on has come to the proper end |
| `Pipeline.RunsEnd` | crates/minlz/src/stream/mt_writer.rs:378-405 | no run is longer than a bound computed from its entries and workers |
| `Pipeline.StepDecreases` | crates/minlz/src/stream/mt_writer.rs:439-507 | every step lowers the bound |
| `Pipeline.WrittenInOrder` | crates/minlz/src/stream/mt_writer.rs:681-785 | for every interleaving, what is written is a prefix of the single-threaded results; success means all of them |
| `Pipeline.EndedRun` | crates/minlz/src/stream/mt_reader.rs:414-448 | with a sink that accepts everything, a finished run succeeded exactly when no result is bad |
| `MtWriter.SinkAfter` | crates/minlz/src/stream/mt_writer.rs:378-405 | after a completed run of any interleaving the sink holds byte for byte what the single-threaded writer leaves after the same calls |
| `MtWriter.MtMatchesSt` | crates/minlz/src/stream/mt_writer.rs:257-310 | every completed run hands the writer thread what it needs for those bytes; runs never get stuck; with a good sink every ended run is complete |
| `MtWriter.WriterLoop` | crates/minlz/src/stream/mt_writer.rs:681-785 | the writer thread: chunks, index, padding and appended index equal the finished stream |
| `MtWriter.DrainOrders` | crates/minlz/src/stream/mt_writer.rs:697-745 | the receiving loop writes the data bytes and indexes every block start |
| `MtWriter.EmitMtPadding` | crates/minlz/src/stream/mt_writer.rs:792-826 | the padding chunk |
| `MtWriter.SubmitSession` | crates/minlz/src/stream/mt_writer.rs:342-576 | the caller's side submits exactly the orders of its session, EOF last |
| `MtWriter.MtWriter.Write` | crates/minlz/src/stream/mt_writer.rs:542-568 | cuts input into blocks exactly as the single-threaded writer |
| `MtWriter.MtWriter.AddUserChunk` | crates/minlz/src/stream/mt_writer.rs:351-374 | a user chunk is ordered after the data before it, as in the single-threaded writer; what the items then hold is `Sessions.SessionUsers` |
| `MtWriter.MtWriter.EncodeBuffer` | crates/minlz/src/stream/mt_writer.rs:342-346 | flushes, then submits the buffer in blocks of its own |
| `MtWriter.MtWriter.Finish` | crates/minlz/src/stream/mt_writer.rs:378-405 | all orders of the finished stream |
| `MtWriter.EncodedBytes` | crates/minlz/src/stream/mt_writer.rs:597-678 | a worker's header and body are the chunk the single-threaded writer writes, and never look like its failure marker |
| `MtReader.DispatchLoop` | crates/minlz/src/stream/mt_reader.rs:135-276 | the dispatcher meets no error and all its entries decode exactly when reading the input single-threaded ends cleanly, and then the bytes are the same and the callbacks were given the same user chunks |
| `MtReader.ConcurrentMatchesSequential` | crates/minlz/src/stream/mt_reader.rs:76-133 | for every interleaving, the concurrent decode succeeds exactly when the single-threaded one does, with the same bytes |
| `MtReader.DispatchChunk` | crates/minlz/src/stream/mt_reader.rs:171-273 | each chunk is dispatched as it means, except that a bad compressed chunk may only show in a worker |
| `MtReader.WorkIsDecodeCompressed` | crates/minlz/src/stream/mt_reader.rs:371-412 | a worker decodes exactly what the single-threaded reader would |
| `MtReader.Decode` | crates/minlz/src/stream/mt_reader.rs:371-412 | one round of the worker loop |
| `MtReader.WriterLoop` | crates/minlz/src/stream/mt_reader.rs:414-448 | writes and counts results in order up to the first failure |
| `IndexStream.IndexStream` | crates/minlz/src/index.rs:583-685 | on every input a reader decodes, succeeds exactly when it starts with an identifier or EOF chunk (or is empty); then total uncompressed is the bytes read, total compressed the input length, and the table is that of all data chunks in order, whose reach is `IndexSeek.TableReaches` |
| `IndexStream.EntriesAreStarts` | crates/minlz/src/index.rs:583-685 | every entry that survives thinning is the start of a data chunk paired with the bytes decoded before it; that there are enough of them is `IndexSeek.TableReaches` |
| `IndexStream.DeclaredIsDecoded` | crates/minlz/src/index.rs:619-672 | the length a chunk header declares is what a reader decodes from it |
| `IndexStream.AddGrows` | crates/minlz/src/index.rs:207-232 | entries recorded with any spacing never fail and never exceed the limit by more than the doublings explain |
| `IndexStream.ReducedIsSmall` | crates/minlz/src/index.rs:268-287 | after `reduce` such a table can be coded |
| `IndexReach.ThinReaches` | crates/minlz/src/index.rs:292-308 | `reduce_light` on any sorted table: every dropped entry lies less than the new spacing after a kept one |
| `IndexReach.AddCovers` | crates/minlz/src/index.rs:207-232 | one `add`, with whatever spacing: every start recorded so far has an entry at or before it less than two spacings away |
| `IndexReach.GapBound` | crates/minlz/src/index.rs:207-232 | consecutive entries lie at most two spacings and one block apart |
| `IndexReach.EveryNthReaches` | crates/minlz/src/index.rs:268-287 | `reduce` on a table with bounded gaps: every dropped entry has a kept one that many gaps before it at most |
| `IndexReach.ReduceCovers` | crates/minlz/src/index.rs:268-287 | the reduced table starts with the first data chunk, its entries strictly ascend, and every start is within two spacings and one block per dropped entry |
| `IndexSeek.TableReaches` | crates/minlz/src/index.rs:583-685 | the index of an input that decodes to something: its first entry is the first data chunk, its spacing that of the first block until there are too many entries, and it finds for every offset an entry within two spacings and a few of the largest blocks |
| `IndexSeek.ChunkIsBoundary` | crates/minlz/src/index.rs:639-664 | from any data chunk on, a reader placed there decodes the rest of the content, whoever wrote the stream |
| `IndexSeek.IndexLoads` | crates/minlz/src/index.rs:583-685 | the index loads back as its table and totals |
| `IndexSeek.SeekIndexed` | crates/minlz/src/stream/seek.rs:110-200 | random access to any stream that a reader decodes, with the index `index_stream` builds for it, after any reads and seeks |
| `StreamDamage.DeliveredMatches` | crates/minlz/src/stream/reader.rs:510-570 | no input makes a reader deliver a block whose CRC32C is not the stored one |
| `StreamDamage.DeliveredFits` | crates/minlz/src/stream/reader.rs:510-570 | no chunk delivers more than the block size limit in force |
| `StreamDamage.BlockTooLarge` | crates/minlz/src/stream/reader.rs:546-570 | a stored block above the limit is too large even with the right checksum |
| `StreamDamage.IdentifierAccepted` | crates/minlz/src/stream/reader.rs:595-619 | an identifier is accepted exactly when it spells "MinLz" and a block size from 1 KiB to 8 MiB within the limit |
| `StreamDamage.KindsRefused` | crates/minlz/src/stream/reader.rs:436-458 | chunk types below 0x40 that are not known are refused, and those that need an identifier before it |
| `StreamDamage.ReadCompressedCrc` | crates/minlz/src/stream/reader.rs:510-544 | a block with its checksum over the compressed bytes reads back exactly when that is right |
| `StreamDamage.AlteredChecksum` | crates/minlz/src/stream/reader.rs:531-541 | a written stream with the four checksum bytes of any block changed: the blocks before it come, then `Crc`, which later reads return again |
| `StreamDamage.AlteredData` | crates/minlz/src/stream/reader.rs:546-570 | likewise with up to four bytes in a row changed in a block stored as it is |
| `StreamDamage.AlteredTotal` | crates/minlz/src/stream/reader.rs:572-593 | a written stream with another total in its EOF chunk: everything comes, then `Corrupt`, which later reads return again |
| `StreamDamage.Truncated` | crates/minlz/src/stream/reader.rs:427-464 | a written stream cut short anywhere: exactly the blocks that lie whole before the cut come, then `Corrupt`, never a clean end |
| `Fixtures.Foobar` | crates/minlz/src/block/tests.rs:273-292 | a block made by another implementation decodes to 32 KiB of "foobar " |
| `Fixtures.Abc` | crates/minlz/src/block/tests.rs:273-292 | and one to 16 KiB of "abc" |
| `Fixtures.StreamFixture` | crates/minlz/src/stream/reader/tests.rs:520-531 | a stream made by another implementation is what the writer writes byte for byte, given the same compressed body: identifier, checksum, EOF chunk and index |
| `Fixtures.StreamFixtureReads` | crates/minlz/src/stream/reader/tests.rs:520-531 | and a reader returns its content |

## Left out

- Block.AppendEncoded: for the level Smallest the round trip is stated as "exactly when the appended block is not longer than header plus input", because the L3 output guard alone does not bound the body; the condition is on the output, not on the input.
- EncodeL3.EncodeBlock: works on a growing sequence, so the capacity of the output buffer is not modelled.
- IndexStream.IndexStream: inputs below 2^40 bytes, so that no 64-bit counter can wrap.
- Index.Index.AppendTo: requires the reduced table's numbers to be below 2^61, where no signed sum can wrap; what a failed `Load` leaves in the index is not specified (it can be unsorted).
- StreamWriter.Writer.Write: requires the stream to stay below 2^61 bytes in both coordinates, so that index entries cannot fail.
- Crc.UpdateFolded: the CPU instructions are taken to be the byte-wise steps over their operands; only the folding around them is proved.
- The block encoder enters the stream layer as a function from blocks to optional chunk bodies with the contract that `Block.AppendEncodedChunkBody` proves; that the encoder returns the same bytes each time for the same block is assumed by this.
- Sinks accept every write, except in the pipeline, where a failing sink is a possible step; other I/O errors, interrupted reads and short reads are not modelled.
- Hash functions are arbitrary functions into the table range; compression ratio, skip heuristics and the optimality of match scoring are not modelled.
- 64-bit loads, exclusive or and trailing-zero counts in match extension are modelled as comparing byte slices and finding the first difference.
- Raw-pointer provenance, thread-local table pools, buffer pools and lock poisoning: fresh arrays and values instead.
- A user-chunk callback is taken to succeed; while skipping, what it is given is stated chunk by chunk only (`StreamReader.Reader.HandleSkippable`).
- Worker threads do not panic; a dispatcher that finds the error slot set stops as if the order queue were closed.
- The round-robin cursor is not modelled: a job may go to any worker, and the dispatcher may wait for any busy one, so every real schedule is among the runs considered.
- The writer threads' code is proved over the whole sequence of results they receive; that they receive it in order, piece by piece, is the pipeline's part.
- Error messages, and the distinction of causes within one error kind.
- `Writer::reset`, `Reader::reset`, `ReadSeeker::read_exact_at`, `decoded_len`, `is_minlz` and the level conversions would only add easy members.
- The command-line tool, JSON rendering, and the Snappy and S2 fallback.
