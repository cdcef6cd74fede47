/** What a writer puts on the wire for a list of blocks and user chunks, and the proof that a reader
    gets the blocks back, also from streams that follow one another. */
module StreamSpec {
  import opened Bytes
  import opened StreamFormat
  import opened IndexTable
  import opened IndexWire
  import Block
  import Crc

  /** The block encoder at the writer's level: a smaller chunk body that decodes to the block, or
      nothing, which is what `Block.AppendEncodedChunkBody` ensures of each call. */
  type Codec = seq<byte> -> Option<seq<byte>>

  ghost predicate ValidCodec(codec: Codec) {
    forall d :: codec(d).Some? ==> |codec(d).value| < |d| && Block.DecodeChunkBody(codec(d).value) == Ok(d)
  }

  /** What the caller puts into a stream, cut into blocks. */
  datatype Item = Data(block: seq<byte>) | User(id: byte, body: seq<byte>)

  predicate ValidItem(item: Item, blockSize: nat) {
    match item
    case Data(block) => 1 <= |block| <= blockSize
    case User(id, body) => MIN_USER_SKIPPABLE_CHUNK <= id <= MAX_USER_NON_SKIPPABLE_CHUNK && |body| <= MAX_USER_CHUNK_SIZE
  }

  predicate ValidItems(items: seq<Item>, blockSize: nat) { forall i <- items :: ValidItem(i, blockSize) }

  // -------- bytes on the wire --------

  function ChunkHeader(kind: byte, len: nat): seq<byte> { [kind] + Le24Bytes(len) }

  /** A chunk of `kind` around `body`. */
  function Framed(kind: byte, body: seq<byte>): seq<byte> { ChunkHeader(kind, |body|) + body }

  function HeaderBytes(blockSize: nat): seq<byte>
    requires MIN_BLOCK_SIZE <= blockSize <= MAX_BLOCK_SIZE
  {
    Framed(CHUNK_TYPE_STREAM_IDENTIFIER, MAGIC_BODY + [BlockSizeIndicator(blockSize)])
  }

  function BlockBytes(codec: Codec, block: seq<byte>): seq<byte> {
    var crc := Le32Bytes(Crc.Checksum(block));
    var encoded := codec(block);
    if encoded.Some? then Framed(CHUNK_TYPE_COMPRESSED_DATA, crc + encoded.value)
    else Framed(CHUNK_TYPE_UNCOMPRESSED_DATA, crc + block)
  }

  function ItemBytes(codec: Codec, item: Item): seq<byte> {
    match item
    case Data(block) => BlockBytes(codec, block)
    case User(id, body) => Framed(id, body)
  }

  function ItemsBytes(codec: Codec, items: seq<Item>): seq<byte> {
    if items == [] then [] else ItemsBytes(codec, items[..|items| - 1]) + ItemBytes(codec, items[|items| - 1])
  }

  function Content(items: seq<Item>): seq<byte> {
    if items == [] then []
    else Content(items[..|items| - 1]) + (match items[|items| - 1] case Data(block) => block case User(_, _) => [])
  }

  function EofBytes(total: nat): seq<byte> { Framed(CHUNK_TYPE_EOF, Uvarint(total)) }

  /** The padding chunk that brings `written` bytes to a multiple of `multiple`. */
  function PaddingBytes(written: nat, multiple: nat): seq<byte> {
    if multiple < 2 || written % multiple == 0 then []
    else
      var toAdd := RoomForHeader(multiple - written % multiple, multiple);
      if toAdd > MAX_BLOCK_SIZE + CHUNK_HEADER_SIZE then []
      else Framed(CHUNK_TYPE_PADDING, seq(toAdd - CHUNK_HEADER_SIZE, _ => 0))
  }

  /** `toAdd` raised by multiples until a chunk header fits. */
  function RoomForHeader(toAdd: nat, multiple: nat): (r: nat)
    requires multiple >= 2
    ensures r >= CHUNK_HEADER_SIZE && r >= toAdd
    decreases SaturatingSub(CHUNK_HEADER_SIZE, toAdd)
  {
    if toAdd >= CHUNK_HEADER_SIZE then toAdd else RoomForHeader(toAdd + multiple, multiple)
  }

  /** Everything up to and including the EOF chunk. */
  function DataBytes(blockSize: nat, codec: Codec, items: seq<Item>): seq<byte>
    requires MIN_BLOCK_SIZE <= blockSize <= MAX_BLOCK_SIZE
  {
    HeaderBytes(blockSize) + ItemsBytes(codec, items) + EofBytes(|Content(items)|)
  }

  // -------- the index of a stream --------

  /** The `add` calls of a writer: the position of each block in both coordinates. */
  function Calls(blockSize: nat, codec: Codec, items: seq<Item>): seq<OffsetPair>
    requires MIN_BLOCK_SIZE <= blockSize <= MAX_BLOCK_SIZE
  {
    if items == [] then []
    else
      var front := items[..|items| - 1];
      Calls(blockSize, codec, front) +
      (if items[|items| - 1].User? then []
       else [OffsetPair(|HeaderBytes(blockSize)| + |ItemsBytes(codec, front)|, |Content(front)|)])
  }

  // -------- reading one chunk back --------

  lemma FramedHeld(kind: byte, body: seq<byte>, rest: seq<byte>)
    requires |body| < 0x100_0000
    ensures var s := Framed(kind, body) + rest;
            && |s| >= 4 + |body| && s[0] == kind && Le24(s, 1) == |body|
            && s[4..4 + |body|] == body && s[4 + |body|..] == rest
  {
    Le24RoundTrip(|body|);
  }

  lemma Le32At(v: nat, rest: seq<byte>)
    requires v < 0x1_0000_0000
    ensures var b := Le32Bytes(v) + rest; Le32(b, 0) == v && b[4..] == rest
  {
    Le32RoundTrip(v);
  }

  lemma ReadBlock(o: Options, st: State, codec: Codec, block: seq<byte>, rest: seq<byte>)
    requires ValidCodec(codec) && st.headerRead && 1 <= |block| <= MAX_BLOCK_SIZE && |block| <= st.maxBlock
    ensures Chunk(o, st, BlockBytes(codec, block) + rest) ==
            Next(block, |BlockBytes(codec, block)|, st.(consumed := st.consumed + |block|))
    ensures (BlockBytes(codec, block) + rest)[|BlockBytes(codec, block)|..] == rest
    ensures (BlockBytes(codec, block) + rest)[0] < 0x80
  {
    hide Le24, Le32, Le32Bytes, Framed, Block.DecodeChunkBody, Crc.Checksum;
    var encoded, crc := codec(block), Crc.Checksum(block);
    var inner := if encoded.Some? then encoded.value else block;
    var body := Le32Bytes(crc) + inner;
    FramedLength(codec, block);
    FramedHeld(if encoded.Some? then CHUNK_TYPE_COMPRESSED_DATA else CHUNK_TYPE_UNCOMPRESSED_DATA, body, rest);
    Le32At(crc, inner);
  }

  /** A block chunk takes at most the eight bytes of its header and checksum more than the block. */
  lemma FramedLength(codec: Codec, block: seq<byte>)
    requires ValidCodec(codec)
    ensures var e := codec(block);
            && |BlockBytes(codec, block)| == 8 + (if e.Some? then |e.value| else |block|)
            && 8 <= |BlockBytes(codec, block)| <= 8 + |block|
            && |Le32Bytes(Crc.Checksum(block)) + (if e.Some? then e.value else block)| == |BlockBytes(codec, block)| - 4
  {
  }

  /** A user chunk is passed by, unless its id lies in 0xc0 to 0xfd and has no callback. */
  lemma ReadUser(o: Options, st: State, id: byte, body: seq<byte>, rest: seq<byte>)
    requires ValidItem(User(id, body), 0)
    ensures Chunk(o, st, Framed(id, body) + rest) ==
            if 0xc0 <= id <= 0xfd && id !in o.callbacks then Fail(Corrupt) else Next([], |Framed(id, body)|, st)
    ensures var s := Framed(id, body) + rest;
            s[0] == id && |s| >= 4 + Le24(s, 1) && Body(s, Le24(s, 1)) == body && s[|Framed(id, body)|..] == rest
  {
    hide Le24;
    FramedHeld(id, body, rest);
  }

  /** Padding, index chunks and other reserved skippable chunks. */
  lemma ReadReserved(o: Options, st: State, kind: byte, body: seq<byte>, rest: seq<byte>)
    requires kind == CHUNK_TYPE_PADDING || MAX_NON_SKIPPABLE_CHUNK < kind < MIN_USER_SKIPPABLE_CHUNK
    requires |body| < 0x100_0000
    ensures Chunk(o, st, Framed(kind, body) + rest) == Next([], |Framed(kind, body)|, st)
    ensures (Framed(kind, body) + rest)[|Framed(kind, body)|..] == rest
    ensures (Framed(kind, body) + rest)[0] == kind
  {
    hide Le24;
    FramedHeld(kind, body, rest);
  }

  lemma ReadEof(o: Options, st: State, rest: seq<byte>)
    requires st.consumed < U64
    ensures Chunk(o, st, EofBytes(st.consumed) + rest) ==
            Next([], |EofBytes(st.consumed)|, st.(expectEof := false, headerRead := false))
    ensures (EofBytes(st.consumed) + rest)[|EofBytes(st.consumed)|..] == rest
    ensures (EofBytes(st.consumed) + rest)[0] == CHUNK_TYPE_EOF
  {
    hide Le24, Uvarint, ReadUvarintFrom;
    UvarintRoundTrip(Uvarint(st.consumed), 0, st.consumed);
    FramedHeld(CHUNK_TYPE_EOF, Uvarint(st.consumed), rest);
  }

  lemma ReadHeader(o: Options, st: State, blockSize: nat, rest: seq<byte>)
    requires MIN_BLOCK_SIZE <= blockSize <= MAX_BLOCK_SIZE
    ensures Chunk(o, st, HeaderBytes(blockSize) + rest) ==
            if Negotiated(blockSize) > o.maxBlockUser then Fail(TooLarge)
            else Next([], |HeaderBytes(blockSize)|, State(true, true, Negotiated(blockSize), 0))
    ensures (HeaderBytes(blockSize) + rest)[|HeaderBytes(blockSize)|..] == rest
    ensures (HeaderBytes(blockSize) + rest)[0] == CHUNK_TYPE_STREAM_IDENTIFIER
  {
    hide Le24, BitLength, Pow2;
    IndicatorInverse(blockSize);
    FramedHeld(CHUNK_TYPE_STREAM_IDENTIFIER, MAGIC_BODY + [BlockSizeIndicator(blockSize)], rest);
  }

  // -------- reading a stream back --------

  /** The reader skips over every user chunk among the items. */
  predicate Accepts(o: Options, items: seq<Item>) { forall i <- items :: i.User? ==> !Refused(o, i.id) }

  lemma DrainStep(o: Options, st: State, s: seq<byte>)
    requires Chunk(o, st, s).Next?
    ensures var c := Chunk(o, st, s);
            Drain(o, st, s) == Prepend(c.payload, Joined(st, s, Drain(o, c.state, s[c.length..])))
  {
  }

  lemma PrependTwice(p: seq<byte>, q: seq<byte>, d: Drained)
    ensures Prepend(p, Prepend(q, d)) == Prepend(p + q, d)
    ensures Prepend([], d) == d
  {
    assert p + (q + d.bytes) == p + q + d.bytes;
  }

  /** Reading the chunks of `items` delivers their blocks and nothing else. */
  lemma {:induction false} DrainItems(o: Options, st: State, blockSize: nat, codec: Codec, items: seq<Item>, rest: seq<byte>)
    requires ValidCodec(codec) && ValidItems(items, blockSize) && Accepts(o, items)
    requires st.headerRead && blockSize <= st.maxBlock && blockSize <= MAX_BLOCK_SIZE
    ensures Drain(o, st, ItemsBytes(codec, items) + rest) ==
            Prepend(Content(items), Drain(o, st.(consumed := st.consumed + |Content(items)|), rest))
    decreases |items|
  {
    hide Chunk, Drain, BlockBytes, Framed, ValidCodec;
    if items == [] {
      assert ItemsBytes(codec, items) + rest == rest;
      PrependTwice([], [], Drain(o, st, rest));
    } else {
      var front, item := items[..|items| - 1], items[|items| - 1];
      assert item in items;
      var tail := ItemBytes(codec, item) + rest;
      assert ItemsBytes(codec, items) + rest == ItemsBytes(codec, front) + tail;
      DrainItems(o, st, blockSize, codec, front, tail);
      var st' := st.(consumed := st.consumed + |Content(front)|);
      match item {
        case Data(block) => ReadBlock(o, st', codec, block, rest);
        case User(id, body) => ReadUser(o, st', id, body, rest);
      }
      DrainStep(o, st', tail);
      var c := Chunk(o, st', tail);
      PrependTwice(Content(front), c.payload, Drain(o, c.state, rest));
    }
  }

  /** The state after the EOF chunk of a stream. */
  function AfterEof(blockSize: nat, items: seq<Item>): State
    requires MIN_BLOCK_SIZE <= blockSize <= MAX_BLOCK_SIZE
  {
    State(false, false, Negotiated(blockSize), |Content(items)|)
  }

  /** What follows a whole stream that was opened in state `st`. */
  function Reopened(st: State, d: Drained): Drained {
    d.(seamless := d.seamless && st.consumed == 0, room := Min(st.maxBlock, d.room))
  }

  /** A whole stream, from any state the reader may be in: its payload, then whatever follows it. */
  lemma DrainStream(o: Options, st: State, blockSize: nat, codec: Codec, items: seq<Item>, rest: seq<byte>)
    requires MIN_BLOCK_SIZE <= blockSize <= MAX_BLOCK_SIZE && Negotiated(blockSize) <= o.maxBlockUser
    requires ValidCodec(codec) && ValidItems(items, blockSize) && Accepts(o, items) && |Content(items)| < U64
    ensures Drain(o, st, DataBytes(blockSize, codec, items) + rest) ==
            Prepend(Content(items), Reopened(st, Drain(o, AfterEof(blockSize, items), rest)))
  {
    hide Chunk, Drain, ItemsBytes, Content, EofBytes, HeaderBytes, ValidCodec, Negotiated;
    var total := |Content(items)|;
    var body := ItemsBytes(codec, items) + (EofBytes(total) + rest);
    assert DataBytes(blockSize, codec, items) + rest == HeaderBytes(blockSize) + body;
    ReadHeader(o, st, blockSize, body);
    DrainStep(o, st, HeaderBytes(blockSize) + body);
    var st1 := State(true, true, Negotiated(blockSize), 0);
    NegotiatedHolds(blockSize);
    DrainItems(o, st1, blockSize, codec, items, EofBytes(total) + rest);
    ReadEof(o, st1.(consumed := total), rest);
    DrainStep(o, st1.(consumed := total), EofBytes(total) + rest);
    PrependTwice([], [], Drain(o, st1, body));
    PrependTwice([], [], Drain(o, AfterEof(blockSize, items), rest));
  }

  lemma NegotiatedHolds(blockSize: nat)
    requires MIN_BLOCK_SIZE <= blockSize <= MAX_BLOCK_SIZE
    ensures blockSize <= Negotiated(blockSize) <= MAX_BLOCK_SIZE
  {
    IndicatorInverse(blockSize);
  }

  // -------- user chunks --------

  /** A user chunk and the content before it. */
  datatype Marked = Marked(id: byte, body: seq<byte>, before: seq<byte>)

  /** The user chunks among the items. */
  function UsersOf(items: seq<Item>): seq<Marked> {
    if items == [] then []
    else
      var front := items[..|items| - 1];
      UsersOf(front) + (match items[|items| - 1] case Data(_) => [] case User(id, body) => [Marked(id, body, Content(front))])
  }

  /** The user chunks a reader meets in `s`, each with the body a callback is given and the bytes
      delivered before it, `before` being those delivered before `s`. */
  function UserChunks(o: Options, st: State, s: seq<byte>, before: seq<byte>): seq<Marked>
    decreases |s|
  {
    var c := Chunk(o, st, s);
    if !c.Next? then []
    else
      (if 0x80 <= s[0] <= 0xfd && 4 + Le24(s, 1) <= |s| then [Marked(s[0], Body(s, Le24(s, 1)), before)] else [])
      + UserChunks(o, c.state, s[c.length..], before + c.payload)
  }

  lemma UserChunksStep(o: Options, st: State, s: seq<byte>, before: seq<byte>)
    requires Chunk(o, st, s).Next?
    ensures var c := Chunk(o, st, s);
            var later := UserChunks(o, c.state, s[c.length..], before + c.payload);
            UserChunks(o, st, s, before) ==
            if 0x80 <= s[0] <= 0xfd && 4 + Le24(s, 1) <= |s| then [Marked(s[0], Body(s, Le24(s, 1)), before)] + later else later
  {
    hide Chunk, Le24;
  }

  lemma UserChunksOfOne(o: Options, st: State, blockSize: nat, codec: Codec, item: Item, rest: seq<byte>, before: seq<byte>)
    requires ValidCodec(codec) && ValidItem(item, blockSize) && Accepts(o, [item])
    requires st.headerRead && blockSize <= st.maxBlock && blockSize <= MAX_BLOCK_SIZE
    ensures var later := UserChunks(o, if item.Data? then st.(consumed := st.consumed + |item.block|) else st, rest,
                                    before + (if item.Data? then item.block else []));
            UserChunks(o, st, ItemBytes(codec, item) + rest, before) ==
            if item.Data? then later else [Marked(item.id, item.body, before)] + later
  {
    hide Chunk, UserChunks, BlockBytes, Framed, ValidCodec, Le24;
    assert item in [item];
    match item {
      case Data(block) => ReadBlock(o, st, codec, block, rest);
      case User(id, body) => ReadUser(o, st, id, body, rest);
    }
    UserChunksStep(o, st, ItemBytes(codec, item) + rest, before);
  }

  /** The user chunks of `items` arrive where they were put, with their bodies. */
  lemma {:induction false} UserChunksOfItems(o: Options, st: State, blockSize: nat, codec: Codec, items: seq<Item>, rest: seq<byte>)
    requires ValidCodec(codec) && ValidItems(items, blockSize) && Accepts(o, items)
    requires st.headerRead && blockSize <= st.maxBlock && blockSize <= MAX_BLOCK_SIZE
    ensures UserChunks(o, st, ItemsBytes(codec, items) + rest, []) ==
            UsersOf(items) + UserChunks(o, st.(consumed := st.consumed + |Content(items)|), rest, Content(items))
    decreases |items|
  {
    hide Chunk, UserChunks, ItemBytes, ValidCodec;
    if items == [] {
      assert ItemsBytes(codec, items) + rest == rest;
    } else {
      var front, item := items[..|items| - 1], items[|items| - 1];
      assert item in items;
      var tail := ItemBytes(codec, item) + rest;
      assert ItemsBytes(codec, items) + rest == ItemsBytes(codec, front) + tail;
      UserChunksOfItems(o, st, blockSize, codec, front, tail);
      UserChunksOfOne(o, st.(consumed := st.consumed + |Content(front)|), blockSize, codec, item, rest, Content(front));
    }
  }

  /** The user chunks of a whole stream. */
  lemma UserChunksOfStream(o: Options, st: State, blockSize: nat, codec: Codec, items: seq<Item>, rest: seq<byte>)
    requires MIN_BLOCK_SIZE <= blockSize <= MAX_BLOCK_SIZE && Negotiated(blockSize) <= o.maxBlockUser
    requires ValidCodec(codec) && ValidItems(items, blockSize) && Accepts(o, items) && |Content(items)| < U64
    ensures UserChunks(o, st, DataBytes(blockSize, codec, items) + rest, []) ==
            UsersOf(items) + UserChunks(o, AfterEof(blockSize, items), rest, Content(items))
  {
    hide Chunk, UserChunks, ItemsBytes, Content, EofBytes, HeaderBytes, ValidCodec, Negotiated;
    var total := |Content(items)|;
    var body := ItemsBytes(codec, items) + (EofBytes(total) + rest);
    assert DataBytes(blockSize, codec, items) + rest == HeaderBytes(blockSize) + body;
    ReadHeader(o, st, blockSize, body);
    UserChunksStep(o, st, HeaderBytes(blockSize) + body, []);
    assert forall x: seq<byte> :: x + [] == x;
    var st1 := State(true, true, Negotiated(blockSize), 0);
    NegotiatedHolds(blockSize);
    UserChunksOfItems(o, st1, blockSize, codec, items, EofBytes(total) + rest);
    ReadEof(o, st1.(consumed := total), rest);
    UserChunksStep(o, st1.(consumed := total), EofBytes(total) + rest, Content(items));
  }

  /** The user chunks that have a callback. */
  function Taken(o: Options, users: seq<Marked>): seq<(byte, seq<byte>)> {
    if users == [] then []
    else (if users[0].id in o.callbacks then [(users[0].id, users[0].body)] else []) + Taken(o, users[1..])
  }

  /** The callbacks are given the user chunks that have one. */
  lemma {:induction false} HeardAreTaken(o: Options, st: State, s: seq<byte>, before: seq<byte>)
    ensures Heard(o, st, s) == Taken(o, UserChunks(o, st, s, before))
    decreases |s|
  {
    hide Chunk, Heard, Le24;
    Onward(o, st, s);
    var c := Chunk(o, st, s);
    if c.Next? {
      HeardAreTaken(o, c.state, s[c.length..], before + c.payload);
      UserChunksStep(o, st, s, before);
      var later := UserChunks(o, c.state, s[c.length..], before + c.payload);
      if 0x80 <= s[0] <= 0xfd && 4 + Le24(s, 1) <= |s| {
        assert ([Marked(s[0], Body(s, Le24(s, 1)), before)] + later)[1..] == later;
      }
    }
  }
}
