/** Finished streams: padding, the appended index, and reading any number of them in a row. */
module StreamRoundTrip {
  import opened Bytes
  import opened StreamFormat
  import opened StreamSpec
  import opened IndexTable
  import opened IndexWire
  import Crc

  datatype Config = Config(blockSize: nat, padding: nat, appendIndex: bool)

  /** What the builders check. */
  predicate ValidConfig(c: Config) {
    MIN_BLOCK_SIZE <= c.blockSize <= MAX_BLOCK_SIZE && c.padding <= MAX_BLOCK_SIZE
  }

  /** The stream stays below 2^61 bytes in both coordinates, header and EOF chunk included, so that
      its offsets fit the index. */
  predicate Addressable(codec: Codec, items: seq<Item>) {
    Small(|ItemsBytes(codec, items)| + 32) && Small(|Content(items)|)
  }

  lemma AddressableData(blockSize: nat, codec: Codec, items: seq<Item>)
    requires MIN_BLOCK_SIZE <= blockSize <= MAX_BLOCK_SIZE && Addressable(codec, items)
    ensures Small(|DataBytes(blockSize, codec, items)|)
    ensures |DataBytes(blockSize, codec, items)| >= |HeaderBytes(blockSize)| + |ItemsBytes(codec, items)|
  {
    hide ItemsBytes, Content, Uvarint;
    UvarintAtMostTen(|Content(items)|);
  }

  lemma StreamSmall(blockSize: nat, codec: Codec, items: seq<Item>)
    requires MIN_BLOCK_SIZE <= blockSize <= MAX_BLOCK_SIZE && Addressable(codec, items)
    ensures Small(|Content(items)|) && |Content(items)| <= I64_MAX
    ensures |DataBytes(blockSize, codec, items)| <= I64_MAX
  {
    hide Content, DataBytes;
    AddressableData(blockSize, codec, items);
  }

  // -------- the index --------

  /** The table the writer has built when it closes. */
  function FinalTable(blockSize: nat, codec: Codec, items: seq<Item>): Table
    requires MIN_BLOCK_SIZE <= blockSize <= MAX_BLOCK_SIZE
  {
    var t := AddAll(Reset(blockSize), Calls(blockSize, codec, items));
    if t.Err? then Table([], 0) else Reduce(t.value)
  }

  /** The compressed size is only recorded when no padding will follow. */
  function CompressedTotal(padding: nat, written: nat): Option<nat> {
    if padding <= 1 then Some(written) else None
  }

  function IndexBytes(c: Config, codec: Codec, items: seq<Item>): seq<byte>
    requires ValidConfig(c)
  {
    Serialize(FinalTable(c.blockSize, codec, items), Some(|Content(items)|),
              CompressedTotal(c.padding, |DataBytes(c.blockSize, codec, items)|))
  }

  function AppendedIndex(c: Config, codec: Codec, items: seq<Item>): seq<byte>
    requires ValidConfig(c)
  {
    if c.appendIndex then IndexBytes(c, codec, items) else []
  }

  /** Padding comes before the index, but its size counts the index in. */
  function FinishedBytes(c: Config, codec: Codec, items: seq<Item>): seq<byte>
    requires ValidConfig(c)
  {
    var data, index := DataBytes(c.blockSize, codec, items), AppendedIndex(c, codec, items);
    data + PaddingBytes(|data| + |index|, c.padding) + index
  }

  predicate StrictPairs(calls: seq<OffsetPair>) {
    forall i, j :: 0 <= i < j < |calls| ==>
                     calls[i].compressed < calls[j].compressed && calls[i].uncompressed < calls[j].uncompressed
  }

  predicate Below(calls: seq<OffsetPair>, compressed: nat, uncompressed: nat) {
    forall p <- calls :: p.compressed < compressed && p.uncompressed < uncompressed
  }

  lemma StrictAppend(calls: seq<OffsetPair>, p: OffsetPair, compressed: nat, uncompressed: nat)
    requires StrictPairs(calls) && Below(calls, p.compressed, p.uncompressed)
    requires p.compressed < compressed && p.uncompressed < uncompressed
    ensures StrictPairs(calls + [p]) && Below(calls + [p], compressed, uncompressed)
  {
    var all := calls + [p];
    forall i, j | 0 <= i < j < |all|
      ensures all[i].compressed < all[j].compressed && all[i].uncompressed < all[j].uncompressed
    {
      assert i < |calls| && all[i] in calls;
    }
  }

  /** The gaps of the calls and their relation to the bytes written so far. */
  predicate BlockSteps(calls: seq<OffsetPair>, maxBlock: nat, total: nat) {
    && (forall i :: 0 < i < |calls| ==> 1 <= calls[i].uncompressed - calls[i - 1].uncompressed <= maxBlock)
    && if calls == [] then total == 0
       else calls[0].uncompressed == 0 && 1 <= total - Last(calls).uncompressed <= maxBlock
  }

  /** What one more item adds to the bytes, the content and the calls. */
  lemma OneMore(blockSize: nat, codec: Codec, items: seq<Item>)
    requires MIN_BLOCK_SIZE <= blockSize <= MAX_BLOCK_SIZE && items != []
    ensures var front, item := items[..|items| - 1], items[|items| - 1];
            var at, u := |HeaderBytes(blockSize)| + |ItemsBytes(codec, front)|, |Content(front)|;
            && |ItemsBytes(codec, items)| == |ItemsBytes(codec, front)| + |ItemBytes(codec, item)|
            && |Content(items)| == u + (if item.Data? then |item.block| else 0)
            && Calls(blockSize, codec, items) ==
               (if item.Data? then Calls(blockSize, codec, front) + [OffsetPair(at, u)] else Calls(blockSize, codec, front))
  {
    hide HeaderBytes, ItemBytes;
    assert Calls(blockSize, codec, items[..|items| - 1]) + [] == Calls(blockSize, codec, items[..|items| - 1]);
  }

  /** The `add` calls are the starts of the blocks. */
  lemma {:induction false} CallsAreBlockStarts(blockSize: nat, codec: Codec, items: seq<Item>)
    requires MIN_BLOCK_SIZE <= blockSize <= MAX_BLOCK_SIZE && ValidItems(items, blockSize) && ValidCodec(codec)
    ensures var calls := Calls(blockSize, codec, items);
            && StrictPairs(calls) && BlockSteps(calls, blockSize, |Content(items)|)
            && Below(calls, |HeaderBytes(blockSize)| + |ItemsBytes(codec, items)|, |Content(items)|)
    decreases |items|
  {
    hide ValidCodec, BlockBytes, HeaderBytes, StrictPairs, BlockSteps, Below, Calls, ItemsBytes, Content;
    if items == [] {
      NoCalls(blockSize, codec);
    } else {
      var front, item := items[..|items| - 1], items[|items| - 1];
      assert item in items;
      CallsAreBlockStarts(blockSize, codec, front);
      OneMore(blockSize, codec, items);
      var calls := Calls(blockSize, codec, front);
      var p := OffsetPair(|HeaderBytes(blockSize)| + |ItemsBytes(codec, front)|, |Content(front)|);
      if item.Data? {
        FramedLength(codec, item.block);
        StrictAppend(calls, p, p.compressed + |BlockBytes(codec, item.block)|, p.uncompressed + |item.block|);
        StepAppend(calls, p, blockSize, |item.block|);
      } else {
        BelowGrows(calls, p.compressed, |HeaderBytes(blockSize)| + |ItemsBytes(codec, items)|, p.uncompressed);
      }
    }
  }

  lemma NoCalls(blockSize: nat, codec: Codec)
    requires MIN_BLOCK_SIZE <= blockSize <= MAX_BLOCK_SIZE
    ensures var calls := Calls(blockSize, codec, []);
            && StrictPairs(calls) && BlockSteps(calls, blockSize, |Content([])|)
            && Below(calls, |HeaderBytes(blockSize)| + |ItemsBytes(codec, [])|, |Content([])|)
  {
    hide HeaderBytes;
  }

  lemma BelowGrows(calls: seq<OffsetPair>, n: nat, m: nat, total: nat)
    requires Below(calls, n, total) && n <= m
    ensures Below(calls, m, total)
  {
  }

  lemma StepAppend(calls: seq<OffsetPair>, p: OffsetPair, maxBlock: nat, block: nat)
    requires BlockSteps(calls, maxBlock, p.uncompressed) && 1 <= block <= maxBlock
    ensures BlockSteps(calls + [p], maxBlock, p.uncompressed + block)
  {
    var all := calls + [p];
    forall i | 0 < i < |all| ensures 1 <= all[i].uncompressed - all[i - 1].uncompressed <= maxBlock {
      assert all[i - 1] == calls[i - 1];
    }
  }

  lemma {:induction false} InitialSpacingBound(mb: nat)
    requires 1 <= mb
    ensures InitialSpacing(mb) <= mb || InitialSpacing(mb) < 2 * MIN_INDEX_DIST
    decreases SaturatingSub(MIN_INDEX_DIST, mb)
  {
    if mb < MIN_INDEX_DIST {
      InitialSpacingBound(mb * 2);
    }
  }

  lemma StartsOf(blockSize: nat, codec: Codec, items: seq<Item>)
    requires MIN_BLOCK_SIZE <= blockSize <= MAX_BLOCK_SIZE && ValidItems(items, blockSize) && ValidCodec(codec)
    requires Addressable(codec, items)
    ensures BlockStarts(Calls(blockSize, codec, items), blockSize, |Content(items)|)
    ensures AddAll(Reset(blockSize), Calls(blockSize, codec, items)).Ok?
  {
    hide ValidCodec, Calls, HeaderBytes, ItemsBytes, EofBytes, AddAll, Content;
    CallsAreBlockStarts(blockSize, codec, items);
    var calls := Calls(blockSize, codec, items);
    AddressableData(blockSize, codec, items);
    StrictSorted(calls);
    FinishedSpacing(blockSize, calls, |Content(items)|);
  }

  lemma StrictSorted(calls: seq<OffsetPair>)
    requires StrictPairs(calls)
    ensures Sorted(calls)
  {
  }

  /** The reduction that precedes serialisation, on the calls of a writer. */
  lemma FinalTableSpaced(blockSize: nat, codec: Codec, items: seq<Item>)
    requires MIN_BLOCK_SIZE <= blockSize <= MAX_BLOCK_SIZE && ValidItems(items, blockSize) && ValidCodec(codec)
    requires Addressable(codec, items)
    ensures var t, total := FinalTable(blockSize, codec, items), |Content(items)|;
            && Spaced(t.entries, t.est) && |t.entries| < MAX_INDEX_ENTRIES && t.est >= MIN_INDEX_DIST
            && (t.est == InitialSpacing(blockSize) || t.est * (MAX_INDEX_ENTRIES - 1) <= 2 * total)
            && (forall e <- t.entries :: e in Calls(blockSize, codec, items))
            && (forall q :: 0 <= q <= total ==>
                  Find(t.entries, q).uncompressed <= q < Find(t.entries, q).uncompressed + 2 * t.est)
  {
    hide ValidCodec, Calls, HeaderBytes, ItemsBytes, AddAll, Content, Reduce, Spaced, InitialSpacing, BlockStarts, Addressable;
    StartsOf(blockSize, codec, items);
    FinishedSpacing(blockSize, Calls(blockSize, codec, items), |Content(items)|);
  }

  /** The writer's finished table: entries are block starts, strictly ascending in both coordinates,
      spaced in `[est, 2 * est)`, and small enough to be coded. */
  lemma FinalTableFacts(blockSize: nat, codec: Codec, items: seq<Item>)
    requires MIN_BLOCK_SIZE <= blockSize <= MAX_BLOCK_SIZE && ValidItems(items, blockSize) && ValidCodec(codec)
    requires Addressable(codec, items)
    ensures var t := FinalTable(blockSize, codec, items);
            && SmallTable(t) && UAscending(t.entries, 0) && CAscending(t.entries, 0) && Spaced(t.entries, t.est)
            && |t.entries| < MAX_INDEX_ENTRIES && t.est >= MIN_INDEX_DIST
            && (forall e <- t.entries :: e in Calls(blockSize, codec, items))
            && (forall q :: 0 <= q <= |Content(items)| ==>
                  Find(t.entries, q).uncompressed <= q < Find(t.entries, q).uncompressed + 2 * t.est)
  {
    hide ValidCodec, Calls, HeaderBytes, ItemsBytes, Content, Spaced, InitialSpacing, FinalTable, StrictPairs, BlockSteps, UAscending,
         CAscending, Find;
    var calls := Calls(blockSize, codec, items);
    CallsAreBlockStarts(blockSize, codec, items);
    FinalTableSpaced(blockSize, codec, items);
    InitialSpacingBound(blockSize);
    AddressableData(blockSize, codec, items);
    var t := FinalTable(blockSize, codec, items);
    forall e <- t.entries ensures Small(e.compressed) && Small(e.uncompressed) {
      assert e in calls;
    }
    SpacedAscends(t, calls);
  }

  /** Among block starts, ascending uncompressed offsets mean ascending compressed ones. */
  lemma SpacedAscends(t: Table, calls: seq<OffsetPair>)
    requires Spaced(t.entries, t.est) && StrictPairs(calls) && forall e <- t.entries :: e in calls
    ensures UAscending(t.entries, 0) && CAscending(t.entries, 0)
  {
    var es := t.entries;
    forall i | 0 < i < |es| ensures es[i - 1].uncompressed < es[i].uncompressed && es[i - 1].compressed < es[i].compressed {
      assert t.est <= es[i].uncompressed - es[i - 1].uncompressed;
      assert es[i] in calls && es[i - 1] in calls;
      var j :| 0 <= j < |calls| && calls[j] == es[i];
      var k :| 0 <= k < |calls| && calls[k] == es[i - 1];
      assert k < j;
    }
  }

  /** The index a writer produces loads back with its totals, whatever follows it. */
  lemma WriterIndexLoads(c: Config, codec: Codec, items: seq<Item>, rest: seq<byte>)
    requires ValidConfig(c) && ValidItems(items, c.blockSize) && ValidCodec(codec)
    requires Addressable(codec, items)
    ensures Parse(IndexBytes(c, codec, items) + rest) ==
            Ok((Loaded(|Content(items)|, CompressedTotal(c.padding, |DataBytes(c.blockSize, codec, items)|),
                       FinalTable(c.blockSize, codec, items)),
                |IndexBytes(c, codec, items)|))
  {
    hide ValidCodec, FinalTable, Serialize, Parse, SmallTable, UAscending, CAscending, DataBytes, Content, Spaced;
    FinalTableFacts(c.blockSize, codec, items);
    AddressableData(c.blockSize, codec, items);
    IndexRoundTrip(FinalTable(c.blockSize, codec, items), Some(|Content(items)|),
                   CompressedTotal(c.padding, |DataBytes(c.blockSize, codec, items)|), rest);
  }

  // -------- padding --------

  lemma {:induction false} RoomIsCongruent(toAdd: nat, multiple: nat)
    requires multiple >= 2
    ensures (RoomForHeader(toAdd, multiple) - toAdd) % multiple == 0
    ensures RoomForHeader(toAdd, multiple) <= toAdd || RoomForHeader(toAdd, multiple) < CHUNK_HEADER_SIZE + multiple
    decreases SaturatingSub(CHUNK_HEADER_SIZE, toAdd)
  {
    if toAdd < CHUNK_HEADER_SIZE {
      RoomIsCongruent(toAdd + multiple, multiple);
      var r := RoomForHeader(toAdd, multiple);
      var q := (r - (toAdd + multiple)) / multiple;
      assert r - toAdd == (q + 1) * multiple;
      DivMod(r - toAdd, multiple, q + 1, 0);
    }
  }

  /** Completing the remainder gives a multiple. */
  lemma Completed(written: nat, multiple: nat, toAdd: nat)
    requires multiple >= 2 && toAdd >= multiple - written % multiple
    requires (toAdd - (multiple - written % multiple)) % multiple == 0
    ensures (written + toAdd) % multiple == 0
  {
    var left := written % multiple;
    var q, k := written / multiple, (toAdd - (multiple - left)) / multiple;
    assert written == q * multiple + left;
    assert toAdd - (multiple - left) == k * multiple;
    assert (q + 1 + k) * multiple == q * multiple + multiple + k * multiple;
    DivMod(written + toAdd, multiple, q + 1 + k, 0);
  }

  /** After padding, the total is a multiple, and the padding is one chunk or nothing. */
  lemma PaddingFits(written: nat, multiple: nat)
    requires 2 <= multiple <= MAX_BLOCK_SIZE
    ensures (written + |PaddingBytes(written, multiple)|) % multiple == 0
    ensures PaddingBytes(written, multiple) == [] ||
            exists n: nat :: n < 0x100_0000 && PaddingBytes(written, multiple) == Framed(CHUNK_TYPE_PADDING, Zeros(n))
  {
    hide RoomForHeader;
    var left := written % multiple;
    if left != 0 {
      var r := RoomForHeader(multiple - left, multiple);
      RoomIsCongruent(multiple - left, multiple);
      Completed(written, multiple, r);
      var z := Zeros(r - CHUNK_HEADER_SIZE);
      assert PaddingBytes(written, multiple) == Framed(CHUNK_TYPE_PADDING, z);
      assert |Framed(CHUNK_TYPE_PADDING, z)| == r;
    }
  }

  function Zeros(n: nat): seq<byte> { seq(n, _ => 0) }

  /** A finished stream has a padded length, index included. */
  lemma FinishedLength(c: Config, codec: Codec, items: seq<Item>)
    requires ValidConfig(c) && c.padding >= 2
    ensures |FinishedBytes(c, codec, items)| % c.padding == 0
  {
    hide DataBytes, PaddingBytes, AppendedIndex;
    PaddingFits(|DataBytes(c.blockSize, codec, items)| + |AppendedIndex(c, codec, items)|, c.padding);
  }

  // -------- reading finished streams --------

  lemma DrainPadding(o: Options, st: State, written: nat, multiple: nat, rest: seq<byte>)
    requires multiple <= MAX_BLOCK_SIZE
    ensures Drain(o, st, PaddingBytes(written, multiple) + rest) == Drain(o, st, rest)
  {
    hide Chunk, Drain, Framed;
    var p := PaddingBytes(written, multiple);
    if multiple >= 2 {
      PaddingFits(written, multiple);
    }
    if p == [] {
      assert p + rest == rest;
    } else {
      var n: nat :| n < 0x100_0000 && p == Framed(CHUNK_TYPE_PADDING, Zeros(n));
      ReadReserved(o, st, CHUNK_TYPE_PADDING, Zeros(n), rest);
      DrainStep(o, st, p + rest);
      PrependTwice([], [], Drain(o, st, rest));
    }
  }

  lemma EnvelopeIsFramed(payload: seq<byte>)
    ensures Envelope(payload) == Framed(CHUNK_TYPE_INDEX, INDEX_HEADER + payload + Closing(|payload| + 20))
  {
  }

  /** The writer's index without its envelope. */
  function IndexPayload(c: Config, codec: Codec, items: seq<Item>): seq<byte>
    requires ValidConfig(c)
  {
    Payload(FinalTable(c.blockSize, codec, items), Some(|Content(items)|),
            CompressedTotal(c.padding, |DataBytes(c.blockSize, codec, items)|))
  }

  /** A writer's index is one chunk whose length fits its header. */
  lemma IndexIsEnvelope(c: Config, codec: Codec, items: seq<Item>)
    requires ValidConfig(c) && ValidItems(items, c.blockSize) && ValidCodec(codec)
    requires Addressable(codec, items)
    ensures var payload := IndexPayload(c, codec, items);
            IndexBytes(c, codec, items) == Envelope(payload) && 0 < |payload| && |payload| + 20 < 0x100_0000
  {
    hide ValidCodec, FinalTable, SmallTable, UAscending, CAscending, IndexWire.Payload, Envelope, Spaced, DataBytes, Content;
    FinalTableFacts(c.blockSize, codec, items);
    StreamSmall(c.blockSize, codec, items);
    PayloadLength(FinalTable(c.blockSize, codec, items), Some(|Content(items)|),
                  CompressedTotal(c.padding, |DataBytes(c.blockSize, codec, items)|));
  }

  lemma DrainIndex(o: Options, st: State, c: Config, codec: Codec, items: seq<Item>, rest: seq<byte>)
    requires ValidConfig(c) && ValidItems(items, c.blockSize) && ValidCodec(codec)
    requires Addressable(codec, items)
    ensures Drain(o, st, AppendedIndex(c, codec, items) + rest) == Drain(o, st, rest)
  {
    hide Chunk, Drain, Framed, ValidCodec, Envelope, IndexBytes, IndexPayload, Addressable;
    var index := AppendedIndex(c, codec, items);
    if c.appendIndex {
      var payload := IndexPayload(c, codec, items);
      IndexIsEnvelope(c, codec, items);
      EnvelopeIsFramed(payload);
      ClosingLength(|payload| + 20);
      ReadReserved(o, st, CHUNK_TYPE_INDEX, INDEX_HEADER + payload + Closing(|payload| + 20), rest);
      DrainStep(o, st, index + rest);
      PrependTwice([], [], Drain(o, st, rest));
    } else {
      assert index + rest == rest;
    }
  }

  /** Everything needed for a stream to be written and read back. */
  ghost predicate Readable(o: Options, c: Config, codec: Codec, items: seq<Item>) {
    && ValidConfig(c) && ValidItems(items, c.blockSize) && ValidCodec(codec) && Accepts(o, items)
    && Addressable(codec, items)
    && Negotiated(c.blockSize) <= o.maxBlockUser
  }

  lemma ContentSmall(codec: Codec, items: seq<Item>)
    requires Addressable(codec, items)
    ensures |Content(items)| < U64
  {
  }

  /** A finished stream with padding and index: its payload, then whatever follows it. */
  lemma DrainFinished(o: Options, st: State, c: Config, codec: Codec, items: seq<Item>, rest: seq<byte>)
    requires Readable(o, c, codec, items)
    ensures Drain(o, st, FinishedBytes(c, codec, items) + rest) ==
            Prepend(Content(items), Reopened(st, Drain(o, AfterEof(c.blockSize, items), rest)))
  {
    hide Drain, ValidCodec, PaddingBytes, AppendedIndex, DataBytes, Negotiated, ValidItems, Accepts, Content, ItemsBytes, Prepend, Reopened;
    var data, index := DataBytes(c.blockSize, codec, items), AppendedIndex(c, codec, items);
    ContentSmall(codec, items);
    var padding := PaddingBytes(|data| + |index|, c.padding);
    assert FinishedBytes(c, codec, items) + rest == data + (padding + (index + rest));
    DrainStream(o, st, c.blockSize, codec, items, padding + (index + rest));
    DrainPadding(o, AfterEof(c.blockSize, items), |data| + |index|, c.padding, index + rest);
    DrainIndex(o, AfterEof(c.blockSize, items), c, codec, items, rest);
  }

  lemma PassReserved(o: Options, st: State, kind: byte, body: seq<byte>, rest: seq<byte>, before: seq<byte>)
    requires kind == CHUNK_TYPE_PADDING || MAX_NON_SKIPPABLE_CHUNK < kind < MIN_USER_SKIPPABLE_CHUNK
    requires |body| < 0x100_0000
    ensures UserChunks(o, st, Framed(kind, body) + rest, before) == UserChunks(o, st, rest, before)
  {
    hide Chunk, UserChunks, Framed;
    ReadReserved(o, st, kind, body, rest);
    UserChunksStep(o, st, Framed(kind, body) + rest, before);
    assert before + [] == before;
  }

  /** Neither padding nor the index is taken for a user chunk. */
  lemma UserChunksOfFinished(o: Options, st: State, c: Config, codec: Codec, items: seq<Item>, rest: seq<byte>)
    requires Readable(o, c, codec, items)
    ensures UserChunks(o, st, FinishedBytes(c, codec, items) + rest, []) ==
            UsersOf(items) + UserChunks(o, AfterEof(c.blockSize, items), rest, Content(items))
  {
    hide UserChunks, ValidCodec, PaddingBytes, AppendedIndex, DataBytes, Negotiated, Framed, Envelope;
    var data, index := DataBytes(c.blockSize, codec, items), AppendedIndex(c, codec, items);
    var padding := PaddingBytes(|data| + |index|, c.padding);
    assert FinishedBytes(c, codec, items) + rest == data + (padding + (index + rest));
    UserChunksOfStream(o, st, c.blockSize, codec, items, padding + (index + rest));
    var after := AfterEof(c.blockSize, items);
    if padding == [] {
      assert padding + (index + rest) == index + rest;
    } else {
      PaddingIsChunk(|data| + |index|, c.padding);
      var n: nat :| n < 0x100_0000 && padding == Framed(CHUNK_TYPE_PADDING, Zeros(n));
      PassReserved(o, after, CHUNK_TYPE_PADDING, Zeros(n), index + rest, Content(items));
    }
    if index == [] {
      assert index + rest == rest;
    } else {
      IndexIsChunk(c, codec, items);
      var body: seq<byte> :| |body| < 0x100_0000 && index == Framed(CHUNK_TYPE_INDEX, body);
      PassReserved(o, after, CHUNK_TYPE_INDEX, body, rest, Content(items));
    }
  }

  lemma PaddingIsChunk(written: nat, multiple: nat)
    requires multiple <= MAX_BLOCK_SIZE && PaddingBytes(written, multiple) != []
    ensures exists n: nat :: n < 0x100_0000 && PaddingBytes(written, multiple) == Framed(CHUNK_TYPE_PADDING, Zeros(n))
  {
    if multiple >= 2 {
      PaddingFits(written, multiple);
    }
  }

  lemma IndexIsChunk(c: Config, codec: Codec, items: seq<Item>)
    requires ValidConfig(c) && ValidItems(items, c.blockSize) && ValidCodec(codec) && Addressable(codec, items)
    requires AppendedIndex(c, codec, items) != []
    ensures exists body: seq<byte> ::
              |body| < 0x100_0000 && AppendedIndex(c, codec, items) == Framed(CHUNK_TYPE_INDEX, body)
  {
    hide Framed, ValidCodec, Envelope, IndexBytes, IndexPayload, Addressable;
    var payload := IndexPayload(c, codec, items);
    IndexIsEnvelope(c, codec, items);
    EnvelopeIsFramed(payload);
    ClosingLength(|payload| + 20);
    assert |INDEX_HEADER + payload + Closing(|payload| + 20)| < 0x100_0000;
  }

  /** A written stream: its configuration, encoder and items. */
  datatype Written = Written(config: Config, codec: Codec, items: seq<Item>)

  ghost predicate AllReadable(o: Options, streams: seq<Written>) {
    forall s <- streams :: Readable(o, s.config, s.codec, s.items)
  }

  ghost function AllBytes(o: Options, streams: seq<Written>): seq<byte>
    requires AllReadable(o, streams)
  {
    if streams == [] then []
    else
      assert streams[0] in streams;
      var s := streams[0];
      FinishedBytes(s.config, s.codec, s.items) + AllBytes(o, streams[1..])
  }

  function AllContents(streams: seq<Written>): seq<byte> {
    if streams == [] then [] else Content(streams[0].items) + AllContents(streams[1..])
  }

  /** The reader returns the concatenated input of any number of finished streams, for every block
      size, padding, level and interleaving of user chunks, and then ends cleanly. */
  lemma {:induction false} StreamsRoundTrip(o: Options, st: State, streams: seq<Written>)
    requires AllReadable(o, streams) && !st.expectEof
    ensures var d := Drain(o, st, AllBytes(o, streams)); d.bytes == AllContents(streams) && d.error == None
    decreases |streams|
  {
    hide FinishedBytes, Readable;
    if streams != [] {
      var s := streams[0];
      assert s in streams;
      var st' := AfterReadable(o, s);
      StreamsRoundTrip(o, st', streams[1..]);
      DrainFinished(o, st, s.config, s.codec, s.items, AllBytes(o, streams[1..]));
    }
  }

  ghost function AfterReadable(o: Options, s: Written): (st: State)
    requires Readable(o, s.config, s.codec, s.items)
    ensures !st.expectEof
  {
    AfterEof(s.config.blockSize, s.items)
  }

  /** Otherwise the reader refuses the very first chunk: a negotiated size above the reader's limit
      is too large, even if no block of the stream is. */
  lemma NegotiationRefused(o: Options, st: State, c: Config, codec: Codec, items: seq<Item>, rest: seq<byte>)
    requires ValidConfig(c) && Negotiated(c.blockSize) > o.maxBlockUser
    ensures var d := Drain(o, st, FinishedBytes(c, codec, items) + rest); d.bytes == [] && d.error == Some(TooLarge)
  {
    hide Chunk, HeaderBytes, Negotiated, ItemsBytes, EofBytes, PaddingBytes, AppendedIndex;
    var all := FinishedBytes(c, codec, items) + rest;
    assert all == HeaderBytes(c.blockSize) + all[|HeaderBytes(c.blockSize)|..];
    ReadHeader(o, st, c.blockSize, all[|HeaderBytes(c.blockSize)|..]);
  }
}
