/** What a reader makes of a written stream that was changed or cut short on its way. */
module StreamDamage {
  import opened Bytes
  import opened StreamFormat
  import opened StreamSpec
  import opened StreamRoundTrip
  import opened Chunking
  import Block
  import BlockSpec
  import Crc

  // -------- whatever is delivered has the stored checksum --------

  /** No input makes a reader deliver a block whose CRC is not the stored one; only chunks of type
      0x03 store one of the compressed bytes instead. */
  lemma DeliveredMatches(o: Options, st: State, s: seq<byte>)
    requires !o.ignoreCrc
    ensures var c := Chunk(o, st, s);
            c.Next? && c.payload != [] ==>
              && |s| >= 8 && 0x01 <= s[0] <= 0x03
              && (s[0] != 0x03 ==> Crc.Matches(Le32(s, 4), c.payload))
  {
    hide Le24, Le32, DecodeCompressed, Crc.Checksum, Crc.Matches, BlockSizeFromIndicator;
    var c := Chunk(o, st, s);
    if c.Next? && c.payload != [] {
      var len := Le24(s, 1);
      DecodedMatches(o, s[0] == CHUNK_TYPE_COMPRESSED_DATA_COMP_CRC, Body(s, len), st.maxBlock);
      StoredChecksum(s, len);
      Crc.ChecksumUnmasked(c.payload);
    }
  }

  lemma StoredChecksum(s: seq<byte>, len: nat)
    requires len >= 4 && 4 + len <= |s|
    ensures Le32(Body(s, len), 0) == Le32(s, 4) < 0x1_0000_0000
  {
  }

  lemma DecodedMatches(o: Options, comp: bool, body: seq<byte>, maxBlock: nat)
    requires |body| >= CHECKSUM_SIZE && !o.ignoreCrc
    ensures var d := DecodeCompressed(o, comp, body, maxBlock); d.Ok? && !comp ==> Crc.Checksum(d.value) == Le32(body, 0)
  {
    hide Le32, Crc.Checksum;
  }

  // -------- what a reader accepts --------

  /** No chunk delivers more than the block size limit in force, and no identifier raises the limit
      above the reader's own. */
  lemma DeliveredFits(o: Options, st: State, s: seq<byte>)
    ensures var c := Chunk(o, st, s);
            c.Next? ==> |c.payload| <= st.maxBlock && (c.state.maxBlock == st.maxBlock || c.state.maxBlock <= o.maxBlockUser)
  {
    hide Le24, Le32, Block.SplitChunkBody, Crc.Checksum, BlockSizeFromIndicator;
  }

  /** A block stored as it is that exceeds the limit is too large, even if its checksum is right. */
  lemma BlockTooLarge(o: Options, st: State, field: seq<byte>, block: seq<byte>, rest: seq<byte>)
    requires st.headerRead && |field| == 4 && st.maxBlock < |block| <= MAX_BLOCK_SIZE
    ensures Chunk(o, st, Framed(0x01, field + block) + rest) == Fail(TooLarge)
  {
    hide Le24, Le32, Framed, Crc.Checksum;
    FramedHeld(0x01, field + block, rest);
  }

  /** An identifier is accepted exactly when it spells "MinLz" and a block size from 1 KiB to 8 MiB
      that is within the reader's limit; then a new stream begins. */
  lemma IdentifierAccepted(o: Options, st: State, body: seq<byte>, rest: seq<byte>)
    requires |body| < 0x100_0000
    ensures var c := Chunk(o, st, Framed(0xff, body) + rest);
            && (c.Next? <==>
                  && |body| == 6 && body[..5] == [0x4d, 0x69, 0x6e, 0x4c, 0x7a]
                  && body[5] < 0x40 && body[5] % 16 <= 13 && Pow2(body[5] % 16 + 10) <= o.maxBlockUser)
            && (c.Next? ==> c == Next([], 10, State(true, true, Pow2(body[5] % 16 + 10), 0)))
  {
    hide Le24, Pow2;
    FramedHeld(0xff, body, rest);
  }

  /** Chunk types below 0x40 that are not known are refused, and so is every chunk that needs an
      identifier before it. */
  lemma KindsRefused(o: Options, st: State, kind: byte, body: seq<byte>, rest: seq<byte>)
    requires kind <= 0x3f && kind != 0x20 && |body| < 0x100_0000
    ensures !st.headerRead ==> Chunk(o, st, Framed(kind, body) + rest) == Fail(Corrupt)
    ensures st.headerRead && (kind == 0x00 || kind > 0x03) ==> Chunk(o, st, Framed(kind, body) + rest) == Fail(Unsupported)
  {
    hide Le24, CompressedChunk, UncompressedChunk;
    FramedHeld(kind, body, rest);
  }

  /** A block whose checksum is over its compressed bytes reads back exactly when that is right. */
  lemma ReadCompressedCrc(o: Options, st: State, field: seq<byte>, block: seq<byte>, body: seq<byte>, rest: seq<byte>)
    requires st.headerRead && |field| == 4 && 0 < |body| <= |block| && |block| <= st.maxBlock <= MAX_BLOCK_SIZE
    requires BlockSpec.DecodeBody(body, |block|) == Some(block) && |Uvarint(|block|)| + |body| <= |block| + 2
    ensures var chunk := Framed(0x03, field + (Uvarint(|block|) + body));
            Chunk(o, st, chunk + rest) ==
            if o.ignoreCrc || Le32(field, 0) == Crc.Checksum(body)
            then Next(block, |chunk|, st.(consumed := st.consumed + |block|)) else Fail(Error.Crc)
  {
    hide Le24, Le32, Framed, Crc.Checksum, Uvarint, BlockSpec.DecodeBody, Block.SplitChunkBody, Block.DecodeChunkBody;
    var inner := Uvarint(|block|) + body;
    FramedHeld(0x03, field + inner, rest);
    Le32Front(field, inner);
    Block.CompressedChunk(block, body);
    SplitOfCompressed(block, body);
    FramedSize(0x03, field + inner);
  }

  lemma FramedSize(kind: byte, body: seq<byte>)
    ensures |Framed(kind, body)| == 4 + |body|
  {
  }

  lemma SplitOfCompressed(block: seq<byte>, body: seq<byte>)
    requires 0 < |body| <= |block| <= MAX_BLOCK_SIZE
    ensures Block.SplitChunkBody(Uvarint(|block|) + body) == Ok((|block|, body))
  {
    hide Uvarint, ReadUvarint;
    var chunk, v := Uvarint(|block|) + body, Uvarint(|block|);
    assert chunk[0..0 + |v|] == v;
    UvarintRoundTrip(chunk, 0, |block|);
    assert chunk[|v|..] == body;
  }

  // -------- one changed chunk --------

  lemma Le32Injective(a: seq<byte>, b: seq<byte>)
    requires |a| == |b| == 4 && Le32(a, 0) == Le32(b, 0)
    ensures a == b
  {
    var p, q := Le16(a, 2), Le16(b, 2);
    Digit(a[0], a[1] + 0x100 * p, b[0], b[1] + 0x100 * q);
    Digit(a[1], p, b[1], q);
    Digit(a[2], a[3], b[2], b[3]);
  }

  lemma Digit(x: byte, p: int, y: byte, q: int)
    requires x + 0x100 * p == y + 0x100 * q
    ensures x == y && p == q
  {
  }

  lemma Le32Front(field: seq<byte>, rest: seq<byte>)
    requires |field| == 4
    ensures Le32(field + rest, 0) == Le32(field, 0) && (field + rest)[4..] == rest
  {
  }

  /** A block chunk with `field` in place of its checksum. */
  function WithChecksum(codec: Codec, block: seq<byte>, field: seq<byte>): seq<byte> {
    var e := codec(block);
    if e.Some? then Framed(0x02, field + e.value) else Framed(0x01, field + block)
  }

  lemma OwnChecksum(codec: Codec, block: seq<byte>)
    ensures BlockBytes(codec, block) == WithChecksum(codec, block, Le32Bytes(Crc.Checksum(block)))
  {
  }

  /** Any change to the four checksum bytes of a block is noticed. */
  lemma ChecksumChanged(o: Options, st: State, codec: Codec, block: seq<byte>, field: seq<byte>, rest: seq<byte>)
    requires ValidCodec(codec) && st.headerRead && 1 <= |block| <= MAX_BLOCK_SIZE && |block| <= st.maxBlock
    requires !o.ignoreCrc && |field| == 4 && field != Le32Bytes(Crc.Checksum(block))
    ensures Chunk(o, st, WithChecksum(codec, block, field) + rest) == Fail(Error.Crc)
  {
    hide Le24, Le32, Le32Bytes, Framed, Block.DecodeChunkBody, Crc.Checksum;
    var encoded, crc := codec(block), Crc.Checksum(block);
    var inner := if encoded.Some? then encoded.value else block;
    FramedLength(codec, block);
    FramedHeld(if encoded.Some? then 0x02 else 0x01, field + inner, rest);
    Le32RoundTrip(crc);
    Le32Front(field, inner);
    if Le32(field, 0) == crc {
      Le32Injective(field, Le32Bytes(crc));
    }
  }

  /** Any change confined to four bytes in a row of a block stored as it is is noticed. */
  lemma DataChanged(o: Options, st: State, a: seq<byte>, x: seq<byte>, y: seq<byte>, b: seq<byte>, rest: seq<byte>)
    requires st.headerRead && |a + x + b| <= MAX_BLOCK_SIZE && |a + x + b| <= st.maxBlock && !o.ignoreCrc
    requires |x| == |y| <= 4 && x != y
    ensures Chunk(o, st, Framed(0x01, Le32Bytes(Crc.Checksum(a + x + b)) + (a + y + b)) + rest) == Fail(Error.Crc)
  {
    hide Le24, Le32, Le32Bytes, Framed, Crc.Checksum;
    var crc := Crc.Checksum(a + x + b);
    var field := Le32Bytes(crc);
    FieldLength(crc);
    FramedHeld(0x01, field + (a + y + b), rest);
    Le32RoundTrip(crc);
    Le32Front(field, a + y + b);
    Crc.BurstDetected(a, x, y, b);
  }

  lemma FieldLength(crc: nat)
    ensures |Le32Bytes(crc)| == 4
  {
  }

  /** An EOF chunk with another total is noticed. */
  lemma TotalChanged(o: Options, st: State, total: nat, rest: seq<byte>)
    requires total < U64 && total != st.consumed && !o.ignoreStreamId
    ensures Chunk(o, st, EofBytes(total) + rest) == Fail(Corrupt)
  {
    hide Le24, Uvarint, ReadUvarintFrom;
    UvarintRoundTrip(Uvarint(total), 0, total);
    FramedHeld(CHUNK_TYPE_EOF, Uvarint(total), rest);
  }

  /** Every chunk cut short is noticed, also one of which nothing is left. */
  lemma ChunkCut(o: Options, st: State, kind: byte, body: seq<byte>, n: nat)
    requires st.headerRead && st.expectEof && |body| < 0x100_0000 && n < |Framed(kind, body)|
    requires kind == 0x01 ==> |body| <= st.maxBlock + 4
    requires 0x01 <= kind <= 0x02 || kind == CHUNK_TYPE_EOF || kind > MAX_NON_SKIPPABLE_CHUNK
    requires kind == CHUNK_TYPE_STREAM_IDENTIFIER ==> |body| == MAGIC_BODY_LEN
    ensures Chunk(o, st, Framed(kind, body)[..n]) == Fail(Corrupt)
  {
    hide Le24, Le32, DecodeCompressed, TotalMatches, Crc.Checksum, BlockSizeFromIndicator;
    if n >= 4 {
      CutHeader(kind, body, n);
    }
  }

  lemma CutHeader(kind: byte, body: seq<byte>, n: nat)
    requires |body| < 0x100_0000 && 4 <= n <= |Framed(kind, body)|
    ensures var s := Framed(kind, body)[..n]; s[0] == kind && Le24(s, 1) == |body|
  {
    Le24RoundTrip(|body|);
  }

  // -------- streams with a broken chunk --------

  /** Where reading ends is decided after the items. */
  lemma {:induction false} ItemsPassed(o: Options, st: State, blockSize: nat, codec: Codec, items: seq<Item>, rest: seq<byte>)
    requires ValidCodec(codec) && ValidItems(items, blockSize) && Accepts(o, items)
    requires st.headerRead && blockSize <= st.maxBlock && blockSize <= MAX_BLOCK_SIZE
    ensures EndsInHeader(o, st, ItemsBytes(codec, items) + rest) ==
            EndsInHeader(o, st.(consumed := st.consumed + |Content(items)|), rest)
    decreases |items|
  {
    hide Chunk, EndsInHeader, BlockBytes, Framed, ValidCodec, Le24, Heard, HeardNow;
    if items == [] {
      assert ItemsBytes(codec, items) + rest == rest;
    } else {
      var front, item := items[..|items| - 1], items[|items| - 1];
      assert item in items;
      var tail := ItemBytes(codec, item) + rest;
      assert ItemsBytes(codec, items) + rest == ItemsBytes(codec, front) + tail;
      ItemsPassed(o, st, blockSize, codec, front, tail);
      var st' := st.(consumed := st.consumed + |Content(front)|);
      match item {
        case Data(block) => ReadBlock(o, st', codec, block, rest);
        case User(id, body) => ReadUser(o, st', id, body, rest);
      }
      Onward(o, st', tail);
    }
  }

  /** The state after the identifier and the chunks of `front`. */
  function Midway(blockSize: nat, front: seq<Item>): State
    requires MIN_BLOCK_SIZE <= blockSize <= MAX_BLOCK_SIZE
  {
    State(true, true, Negotiated(blockSize), |Content(front)|)
  }

  ghost predicate Admits(o: Options, blockSize: nat, codec: Codec, front: seq<Item>) {
    && MIN_BLOCK_SIZE <= blockSize <= MAX_BLOCK_SIZE && Negotiated(blockSize) <= o.maxBlockUser
    && ValidCodec(codec) && ValidItems(front, blockSize) && Accepts(o, front)
  }

  /** What reading comes to: these bytes, then this error, noted for later reads unless the input broke
      off in a chunk header. */
  ghost predicate EndsBadly(o: Options, st: State, s: seq<byte>, bytes: seq<byte>, e: Error, brokenOff: bool) {
    Drain(o, st, s).bytes == bytes && Drain(o, st, s).error == Some(e) && EndsInHeader(o, st, s) == brokenOff
  }

  lemma Broken(o: Options, st: State, blockSize: nat, codec: Codec, front: seq<Item>, broken: seq<byte>, e: Error)
    requires Admits(o, blockSize, codec, front) && Chunk(o, Midway(blockSize, front), broken) == Fail(e)
    ensures EndsBadly(o, st, HeaderBytes(blockSize) + (ItemsBytes(codec, front) + broken), Content(front), e, |broken| < 4)
  {
    hide Drain, Chunk, EndsInHeader, ItemsBytes, Content, HeaderBytes, ValidCodec, Negotiated, Heard, HeardNow;
    var tail := ItemsBytes(codec, front) + broken;
    ReadHeader(o, st, blockSize, tail);
    DrainStep(o, st, HeaderBytes(blockSize) + tail);
    Onward(o, st, HeaderBytes(blockSize) + tail);
    var st1 := State(true, true, Negotiated(blockSize), 0);
    NegotiatedHolds(blockSize);
    DrainItems(o, st1, blockSize, codec, front, broken);
    ItemsPassed(o, st1, blockSize, codec, front, broken);
    DrainStops(o, Midway(blockSize, front), broken);
    assert Content(front) + [] == Content(front);
    assert [] + Drain(o, st1, tail).bytes == Drain(o, st1, tail).bytes;
  }

  lemma DrainStops(o: Options, st: State, s: seq<byte>)
    requires Chunk(o, st, s).Fail?
    ensures EndsBadly(o, st, s, [], Chunk(o, st, s).error, |s| < 4)
  {
    hide Chunk;
  }

  /** The stream before and after the chunk of item `k`. */
  lemma Around(blockSize: nat, codec: Codec, items: seq<Item>, k: nat)
    requires MIN_BLOCK_SIZE <= blockSize <= MAX_BLOCK_SIZE && k < |items|
    ensures var later := ItemsBytes(codec, items[k + 1..]) + EofBytes(|Content(items)|);
            DataBytes(blockSize, codec, items) ==
            HeaderBytes(blockSize) + (ItemsBytes(codec, items[..k]) + (ItemBytes(codec, items[k]) + later))
  {
    hide HeaderBytes, EofBytes, ItemsBytes, ItemBytes, Content;
    assert items == items[..k + 1] + items[k + 1..];
    ItemsConcat(codec, items[..k + 1], items[k + 1..]);
    LastItem(codec, items, k);
  }

  lemma LastItem(codec: Codec, items: seq<Item>, k: nat)
    requires k < |items|
    ensures ItemsBytes(codec, items[..k + 1]) == ItemsBytes(codec, items[..k]) + ItemBytes(codec, items[k])
  {
    hide ItemBytes;
    assert items[..k + 1][..k] == items[..k];
  }

  lemma AdmitsFront(o: Options, blockSize: nat, codec: Codec, items: seq<Item>, k: nat)
    requires Admits(o, blockSize, codec, items) && k <= |items|
    ensures Admits(o, blockSize, codec, items[..k]) && (k < |items| ==> ValidItem(items[k], blockSize))
    ensures blockSize <= Negotiated(blockSize) <= MAX_BLOCK_SIZE
  {
    hide ValidCodec, Negotiated;
    NegotiatedHolds(blockSize);
    assert k < |items| ==> items[k] in items;
  }

  /** `data` with `field` in place of what stands at `at`. */
  function Patched(data: seq<byte>, at: nat, field: seq<byte>): (r: seq<byte>)
    requires at + |field| <= |data|
    ensures |r| == |data|
  {
    data[..at] + field + data[at + |field|..]
  }

  /** A change inside one chunk is a change of the stream. */
  lemma Spliced(before: seq<byte>, c: seq<byte>, p: nat, field: seq<byte>, later: seq<byte>, rest: seq<byte>)
    requires p + |field| <= |c|
    ensures var data, at := before + (c + later), |before| + p;
            && at + |field| <= |data| && data[at..at + |field|] == c[p..p + |field|]
            && Patched(data, at, field) + rest == before + (Patched(c, p, field) + (later + rest))
  {
    var data, at := before + (c + later), |before| + p;
    assert data[..at] == before + c[..p];
    assert data[at + |field|..] == c[p + |field|..] + later;
  }

  /** A stream with a change inside the chunk of item `k` that makes a reader refuse this chunk. */
  lemma AlteredChunk(o: Options, st: State, blockSize: nat, codec: Codec, items: seq<Item>, k: nat, p: nat, field: seq<byte>,
                     rest: seq<byte>, e: Error)
    requires Admits(o, blockSize, codec, items) && k < |items| && p + |field| <= |ItemBytes(codec, items[k])|
    requires var later := ItemsBytes(codec, items[k + 1..]) + EofBytes(|Content(items)|);
             && Chunk(o, Midway(blockSize, items[..k]), Patched(ItemBytes(codec, items[k]), p, field) + (later + rest)) == Fail(e)
             && |ItemBytes(codec, items[k])| >= 4
    ensures var data, at := DataBytes(blockSize, codec, items), |HeaderBytes(blockSize)| + |ItemsBytes(codec, items[..k])| + p;
            && at + |field| <= |data| && data[at..at + |field|] == ItemBytes(codec, items[k])[p..p + |field|]
            && EndsBadly(o, st, Patched(data, at, field) + rest, Content(items[..k]), e, false)
  {
    hide Drain, Chunk, ItemsBytes, ItemBytes, Content, HeaderBytes, EofBytes, ValidCodec, Negotiated, EndsBadly, Patched;
    var h, front, c := HeaderBytes(blockSize), items[..k], ItemBytes(codec, items[k]);
    var later := ItemsBytes(codec, items[k + 1..]) + EofBytes(|Content(items)|);
    Around(blockSize, codec, items, k);
    AdmitsFront(o, blockSize, codec, items, k);
    var broken := Patched(c, p, field) + (later + rest);
    Broken(o, st, blockSize, codec, front, broken, e);
    Spliced(h + ItemsBytes(codec, front), c, p, field, later, rest);
    assert DataBytes(blockSize, codec, items) == h + ItemsBytes(codec, front) + (c + later);
    assert h + ItemsBytes(codec, front) + broken == h + (ItemsBytes(codec, front) + broken);
  }

  /** A stream in which the four checksum bytes of a block were changed: the blocks before it are
      delivered, then reading ends with a CRC error, and so does every later read. */
  lemma AlteredChecksum(o: Options, st: State, blockSize: nat, codec: Codec, items: seq<Item>, k: nat, field: seq<byte>, rest: seq<byte>)
    requires Admits(o, blockSize, codec, items) && k < |items| && items[k].Data? && !o.ignoreCrc
    requires |field| == 4 && field != Le32Bytes(Crc.Checksum(items[k].block))
    ensures var data, at := DataBytes(blockSize, codec, items), |HeaderBytes(blockSize)| + |ItemsBytes(codec, items[..k])| + 4;
            && at + 4 <= |data| && data[at..at + 4] == Le32Bytes(Crc.Checksum(items[k].block))
            && EndsBadly(o, st, Patched(data, at, field) + rest, Content(items[..k]), Error.Crc, false)
  {
    hide Drain, Chunk, ItemsBytes, Content, HeaderBytes, EofBytes, ValidCodec, Negotiated, WithChecksum, BlockBytes, Crc.Checksum,
         EndsBadly, Le32Bytes, DataBytes;
    var block := items[k].block;
    var later := ItemsBytes(codec, items[k + 1..]) + EofBytes(|Content(items)|);
    AdmitsFront(o, blockSize, codec, items, k);
    ChecksumPlace(codec, block, field);
    ChecksumChanged(o, Midway(blockSize, items[..k]), codec, block, field, later + rest);
    AlteredChunk(o, st, blockSize, codec, items, k, 4, field, rest, Error.Crc);
  }

  /** A changed checksum takes the place of the old one. */
  lemma ChecksumPlace(codec: Codec, block: seq<byte>, field: seq<byte>)
    requires |field| == 4
    ensures var c := BlockBytes(codec, block);
            && |c| >= 8 && c[4..8] == Le32Bytes(Crc.Checksum(block))
            && WithChecksum(codec, block, field) == Patched(c, 4, field)
  {
    hide Le32Bytes, Le24Bytes, Crc.Checksum;
    FieldLength(Crc.Checksum(block));
    OwnChecksum(codec, block);
    var e := codec(block);
    var kind: byte, inner := if e.Some? then 0x02 else 0x01, if e.Some? then e.value else block;
    FieldInChunk(kind, Le32Bytes(Crc.Checksum(block)), field, inner);
  }

  lemma FieldInChunk(kind: byte, stored: seq<byte>, field: seq<byte>, inner: seq<byte>)
    requires |stored| == |field| == 4
    ensures var c := Framed(kind, stored + inner);
            |c| >= 8 && c[4..8] == stored && Framed(kind, field + inner) == Patched(c, 4, field)
  {
    hide Low8;
    assert |stored + inner| == |field + inner|;
  }

  /** A stream in which up to four bytes in a row were changed in a block stored as it is. */
  lemma AlteredData(o: Options, st: State, blockSize: nat, codec: Codec, items: seq<Item>, k: nat, i: nat, y: seq<byte>, rest: seq<byte>)
    requires Admits(o, blockSize, codec, items) && k < |items| && items[k].Data? && !o.ignoreCrc
    requires codec(items[k].block).None? && |y| <= 4 && i + |y| <= |items[k].block| && y != items[k].block[i..i + |y|]
    ensures var data := DataBytes(blockSize, codec, items);
            var at := |HeaderBytes(blockSize)| + |ItemsBytes(codec, items[..k])| + 8 + i;
            && at + |y| <= |data| && data[at..at + |y|] == items[k].block[i..i + |y|]
            && EndsBadly(o, st, Patched(data, at, y) + rest, Content(items[..k]), Error.Crc, false)
  {
    hide Drain, Chunk, ItemsBytes, Content, HeaderBytes, EofBytes, ValidCodec, Negotiated, Crc.Checksum, EndsBadly, Le32Bytes, DataBytes,
         BlockBytes, Framed, Patched;
    var block := items[k].block;
    var later := ItemsBytes(codec, items[k + 1..]) + EofBytes(|Content(items)|);
    AdmitsFront(o, blockSize, codec, items, k);
    var a, x, b := block[..i], block[i..i + |y|], block[i + |y|..];
    assert block == a + x + b;
    DataChanged(o, Midway(blockSize, items[..k]), a, x, y, b, later + rest);
    DataPlace(codec, block, i, y);
    FramedLength(codec, block);
    AlteredChunk(o, st, blockSize, codec, items, k, 8 + i, y, rest, Error.Crc);
  }

  /** The bytes of a block stored as it is follow eight bytes of header and checksum. */
  lemma DataPlace(codec: Codec, block: seq<byte>, i: nat, y: seq<byte>)
    requires codec(block).None? && i + |y| <= |block|
    ensures var c := BlockBytes(codec, block);
            && 8 + i + |y| <= |c| && c[8 + i..8 + i + |y|] == block[i..i + |y|]
            && Framed(0x01, Le32Bytes(Crc.Checksum(block)) + (block[..i] + y + block[i + |y|..])) == Patched(c, 8 + i, y)
  {
    hide Le32Bytes, Le24Bytes, Crc.Checksum;
    FieldLength(Crc.Checksum(block));
    var field := Le32Bytes(Crc.Checksum(block));
    Shifted(0x01, field, block, i, y);
  }

  lemma Shifted(kind: byte, field: seq<byte>, block: seq<byte>, i: nat, y: seq<byte>)
    requires |field| == 4 && i + |y| <= |block|
    ensures var c := Framed(kind, field + block);
            && 8 + i + |y| <= |c| && c[8 + i..8 + i + |y|] == block[i..i + |y|]
            && Framed(kind, field + (block[..i] + y + block[i + |y|..])) == Patched(c, 8 + i, y)
  {
    hide Low8;
    assert |field + (block[..i] + y + block[i + |y|..])| == |field + block|;
  }

  /** A stream whose EOF chunk has another total: everything is delivered, then reading ends with an
      error. */
  lemma AlteredTotal(o: Options, st: State, blockSize: nat, codec: Codec, items: seq<Item>, total: nat, rest: seq<byte>)
    requires Admits(o, blockSize, codec, items) && !o.ignoreStreamId && total < U64 && total != |Content(items)|
    ensures EndsBadly(o, st, HeaderBytes(blockSize) + (ItemsBytes(codec, items) + (EofBytes(total) + rest)), Content(items), Corrupt, false)
  {
    hide Drain, Chunk, ItemsBytes, Content, HeaderBytes, ValidCodec, Negotiated, EndsBadly, Uvarint;
    TotalChanged(o, Midway(blockSize, items), total, rest);
    Broken(o, st, blockSize, codec, items, EofBytes(total) + rest, Corrupt);
  }

  // -------- streams cut short --------

  lemma IdentifierCut(o: Options, st: State, blockSize: nat, n: nat)
    requires MIN_BLOCK_SIZE <= blockSize <= MAX_BLOCK_SIZE && 0 < n < |HeaderBytes(blockSize)|
    ensures Chunk(o, st, HeaderBytes(blockSize)[..n]) == Fail(Corrupt)
  {
    hide Le24, BlockSizeIndicator, BlockSizeFromIndicator;
    if n >= 4 {
      CutHeader(CHUNK_TYPE_STREAM_IDENTIFIER, MAGIC_BODY + [BlockSizeIndicator(blockSize)], n);
    }
  }

  /** The number of chunks that lie whole within the first `n` bytes of the items. */
  lemma {:induction false} WholeChunks(codec: Codec, items: seq<Item>, n: nat) returns (k: nat)
    requires n <= |ItemsBytes(codec, items)|
    ensures k <= |items| && |ItemsBytes(codec, items[..k])| <= n
    ensures if k < |items| then n < |ItemsBytes(codec, items[..k])| + |ItemBytes(codec, items[k])| else n == |ItemsBytes(codec, items)|
    decreases |items|
  {
    hide ItemBytes;
    if n == |ItemsBytes(codec, items)| {
      k := |items|;
      assert items[..k] == items;
    } else {
      var front := items[..|items| - 1];
      if n < |ItemsBytes(codec, front)| {
        k := WholeChunks(codec, front, n);
        assert front[..k] == items[..k];
      } else {
        k := |items| - 1;
      }
    }
  }

  lemma ItemCut(o: Options, st: State, blockSize: nat, codec: Codec, item: Item, n: nat)
    requires ValidCodec(codec) && ValidItem(item, blockSize) && blockSize <= st.maxBlock && blockSize <= MAX_BLOCK_SIZE
    requires st.headerRead && st.expectEof && n < |ItemBytes(codec, item)|
    ensures Chunk(o, st, ItemBytes(codec, item)[..n]) == Fail(Corrupt)
  {
    hide Chunk, Framed, Le32Bytes, Crc.Checksum;
    match item {
      case Data(block) =>
        FramedLength(codec, block);
        FieldLength(Crc.Checksum(block));
        var e := codec(block);
        ChunkCut(o, st, if e.Some? then 0x02 else 0x01, Le32Bytes(Crc.Checksum(block)) + (if e.Some? then e.value else block), n);
      case User(id, body) => ChunkCut(o, st, id, body, n);
    }
  }

  lemma EofCut(o: Options, st: State, total: nat, n: nat)
    requires total < U64 && st.headerRead && st.expectEof && n < |EofBytes(total)|
    ensures Chunk(o, st, EofBytes(total)[..n]) == Fail(Corrupt)
  {
    hide Chunk, Framed, Uvarint;
    UvarintRoundTrip(Uvarint(total), 0, total);
    ChunkCut(o, st, CHUNK_TYPE_EOF, Uvarint(total), n);
  }

  /** A stream cut short anywhere before its end: the blocks that lie whole before the cut are
      delivered, then reading ends with an error; it never seems to end cleanly. */
  lemma Truncated(o: Options, st: State, blockSize: nat, codec: Codec, items: seq<Item>, n: nat) returns (k: nat)
    requires Admits(o, blockSize, codec, items) && |Content(items)| < U64
    requires 0 < n < |DataBytes(blockSize, codec, items)|
    ensures var d := Drain(o, st, DataBytes(blockSize, codec, items)[..n]);
            k <= |items| && d.bytes == Content(items[..k]) && d.error == Some(Corrupt)
    ensures var before := |HeaderBytes(blockSize)| + |ItemsBytes(codec, items[..k])|;
            && (k > 0 ==> before <= n)
            && (k < |items| ==> n < before + |ItemBytes(codec, items[k])|)
  {
    hide Drain, Chunk, ItemsBytes, ItemBytes, Content, HeaderBytes, EofBytes, ValidCodec, Negotiated, EndsInHeader;
    var h, all, data := HeaderBytes(blockSize), ItemsBytes(codec, items), DataBytes(blockSize, codec, items);
    assert data == h + (all + EofBytes(|Content(items)|));
    if n < |h| {
      assert data[..n] == h[..n];
      IdentifierCut(o, st, blockSize, n);
      DrainStops(o, st, data[..n]);
      k := 0;
      NoItems(codec, items);
      return;
    }
    var m := n - |h|;
    if m >= |all| {
      k := |items|;
      assert items[..k] == items;
      AdmitsFront(o, blockSize, codec, items, k);
      var broken := EofBytes(|Content(items)|)[..m - |all|];
      EofCut(o, Midway(blockSize, items), |Content(items)|, m - |all|);
      Broken(o, st, blockSize, codec, items, broken, Corrupt);
      assert data[..n] == h + (all + broken);
      return;
    }
    k := WholeChunks(codec, items, m);
    AtItem(blockSize, codec, items, k, m);
    AdmitsFront(o, blockSize, codec, items, k);
    var front, cut := items[..k], m - |ItemsBytes(codec, items[..k])|;
    ItemCut(o, Midway(blockSize, front), blockSize, codec, items[k], cut);
    Broken(o, st, blockSize, codec, front, ItemBytes(codec, items[k])[..cut], Corrupt);
  }

  lemma NoItems(codec: Codec, items: seq<Item>)
    ensures items[..0] == [] && ItemsBytes(codec, []) == [] && Content([]) == []
    ensures items != [] ==> |ItemBytes(codec, items[0])| >= 4
  {
  }

  lemma AtItem(blockSize: nat, codec: Codec, items: seq<Item>, k: nat, m: nat)
    requires MIN_BLOCK_SIZE <= blockSize <= MAX_BLOCK_SIZE && k < |items|
    requires |ItemsBytes(codec, items[..k])| <= m < |ItemsBytes(codec, items[..k])| + |ItemBytes(codec, items[k])|
    ensures var data, h, before := DataBytes(blockSize, codec, items), HeaderBytes(blockSize), ItemsBytes(codec, items[..k]);
            |h| + m <= |data| && data[..|h| + m] == h + (before + ItemBytes(codec, items[k])[..m - |before|])
  {
    hide HeaderBytes, EofBytes, ItemsBytes, ItemBytes, Content, DataBytes;
    Around(blockSize, codec, items, k);
    CutInside(HeaderBytes(blockSize), ItemsBytes(codec, items[..k]), ItemBytes(codec, items[k]),
              ItemsBytes(codec, items[k + 1..]) + EofBytes(|Content(items)|), m);
  }

  lemma CutInside(h: seq<byte>, before: seq<byte>, c: seq<byte>, later: seq<byte>, m: nat)
    requires |before| <= m < |before| + |c|
    ensures (h + (before + (c + later)))[..|h| + m] == h + (before + c[..m - |before|])
  {
  }
}
