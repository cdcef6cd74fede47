/** The single-threaded writer.  The sink is the sequence `w` of bytes it received; writes to it
    succeed. */
module StreamWriter {
  import opened Bytes
  import opened StreamFormat
  import opened StreamSpec
  import opened StreamRoundTrip
  import opened Chunking
  import opened IndexTable
  import IndexWire
  import Crc
  import Index

  datatype UserError = InvalidInput

  /** The header that `make_stream_header` spells out. */
  function StreamHeader(blockSize: nat): (h: seq<byte>)
    requires MIN_BLOCK_SIZE <= blockSize <= MAX_BLOCK_SIZE
    ensures h == HeaderBytes(blockSize)
  {
    [CHUNK_TYPE_STREAM_IDENTIFIER, 6, 0, 0,
     MAGIC_BODY[0], MAGIC_BODY[1], MAGIC_BODY[2], MAGIC_BODY[3], MAGIC_BODY[4], BlockSizeIndicator(blockSize)]
  }

  /** A chunk header followed by a checksum. */
  function BlockHeader(kind: byte, chunkLen: nat, crc: nat): seq<byte> {
    [kind, Low8(chunkLen), Low8(chunkLen / 0x100), Low8(chunkLen / 0x1_0000)] + Le32Bytes(crc)
  }

  // -------- the index follows the items --------

  lemma BytesAppend(codec: Codec, items: seq<Item>, block: seq<byte>)
    ensures ItemsBytes(codec, items + [Data(block)]) == ItemsBytes(codec, items) + BlockBytes(codec, block)
    ensures Content(items + [Data(block)]) == Content(items) + block
  {
    hide BlockBytes;
    assert (items + [Data(block)])[..|items|] == items;
  }

  lemma CallsAppend(blockSize: nat, codec: Codec, items: seq<Item>, block: seq<byte>)
    requires MIN_BLOCK_SIZE <= blockSize <= MAX_BLOCK_SIZE
    ensures Calls(blockSize, codec, items + [Data(block)]) == Calls(blockSize, codec, items) +
            [OffsetPair(|HeaderBytes(blockSize)| + |ItemsBytes(codec, items)|, |Content(items)|)]
    ensures ItemsBytes(codec, items + [Data(block)]) == ItemsBytes(codec, items) + BlockBytes(codec, block)
    ensures Content(items + [Data(block)]) == Content(items) + block
  {
    BytesAppend(codec, items, block);
    hide HeaderBytes, BlockBytes, ItemsBytes, Content;
    assert (items + [Data(block)])[..|items|] == items;
  }

  lemma CallsSkipUser(blockSize: nat, codec: Codec, items: seq<Item>, id: byte, body: seq<byte>)
    requires MIN_BLOCK_SIZE <= blockSize <= MAX_BLOCK_SIZE
    ensures Calls(blockSize, codec, items + [User(id, body)]) == Calls(blockSize, codec, items)
    ensures ItemsBytes(codec, items + [User(id, body)]) == ItemsBytes(codec, items) + Framed(id, body)
    ensures Content(items + [User(id, body)]) == Content(items)
  {
    hide HeaderBytes;
    assert (items + [User(id, body)])[..|items|] == items;
  }

  lemma AddressablePrefix(codec: Codec, a: seq<Item>, b: seq<Item>)
    requires Addressable(codec, a + b)
    ensures Addressable(codec, a)
  {
    hide ItemsBytes, Content;
    ItemsConcat(codec, a, b);
    ContentConcat(a, b);
  }

  /** The table holds the calls for `items`. */
  ghost predicate Indexed(t: Table, blockSize: nat, codec: Codec, items: seq<Item>)
    requires MIN_BLOCK_SIZE <= blockSize <= MAX_BLOCK_SIZE
  {
    AddAll(Reset(blockSize), Calls(blockSize, codec, items)) == Ok(t) && Sorted(t.entries) && t.est >= 1
  }

  /** Adding the next block to the index cannot fail. */
  lemma IndexedAppend(t: Table, blockSize: nat, codec: Codec, items: seq<Item>, block: seq<byte>)
    requires MIN_BLOCK_SIZE <= blockSize <= MAX_BLOCK_SIZE && 1 <= |block| <= blockSize
    requires ValidItems(items, blockSize) && ValidCodec(codec) && Addressable(codec, items + [Data(block)])
    requires Indexed(t, blockSize, codec, items)
    ensures var p := OffsetPair(|HeaderBytes(blockSize)| + |ItemsBytes(codec, items)|, |Content(items)|);
            && Add(t, p).Ok? && Add(t, p).value.est >= 1
            && AddAll(Reset(blockSize), Calls(blockSize, codec, items + [Data(block)])) == Add(t, p)
  {
    hide HeaderBytes, ItemsBytes, Content, Calls, AddAll, Addressable, ValidCodec, ValidItems, Add, Sorted, BlockStarts, BlockBytes;
    OneValid(items, block, blockSize);
    CallsAppend(blockSize, codec, items, block);
    AddAllAppend(Reset(blockSize), Calls(blockSize, codec, items),
                 OffsetPair(|HeaderBytes(blockSize)| + |ItemsBytes(codec, items)|, |Content(items)|));
    StartsOf(blockSize, codec, items + [Data(block)]);
    AddKeepsSpacing(t, OffsetPair(|HeaderBytes(blockSize)| + |ItemsBytes(codec, items)|, |Content(items)|));
  }

  lemma AddKeepsSpacing(t: Table, p: OffsetPair)
    requires t.est >= 1
    ensures Add(t, p).Ok? ==> Add(t, p).value.est >= 1
  {
    hide Thin;
  }

  lemma IndexedStart(blockSize: nat, codec: Codec)
    requires MIN_BLOCK_SIZE <= blockSize <= MAX_BLOCK_SIZE
    ensures Indexed(Reset(blockSize), blockSize, codec, [])
    ensures ItemsBytes(codec, []) == [] && Content([]) == []
  {
  }

  class Writer {
    const config: Config
    const codec: Codec
    const flushOnWrite: bool
    const generateIndex: bool
    const index: Index.Index
    var w: seq<byte>
    var ibuf: seq<byte>
    var wroteHeader: bool
    var uncompWritten: nat
    var compWritten: nat
    /** The items already written to the sink. */
    ghost var items: seq<Item>

    /** The sink holds the chunks of `items`, and the counters and the index agree with it. */
    ghost predicate Steady()
      reads this, index
    {
      && ValidConfig(config) && ValidCodec(codec) && ValidItems(items, config.blockSize)
      && w == (if wroteHeader then HeaderBytes(config.blockSize) + ItemsBytes(codec, items) else [])
      && (!wroteHeader ==> items == [])
      && compWritten == |w| && uncompWritten == |Content(items)|
      && (config.appendIndex ==> generateIndex)
      && (generateIndex ==> Indexed(index.Contents(), config.blockSize, codec, items))
    }

    ghost predicate Valid()
      reads this, index
    {
      Steady() && |ibuf| < config.blockSize && (flushOnWrite ==> ibuf == [])
    }

    ghost function State(): Pending
      reads this
    {
      Pending(items, ibuf)
    }

    constructor (config: Config, codec: Codec, flushOnWrite: bool, generateIndex: bool)
      requires ValidConfig(config) && ValidCodec(codec)
      ensures Valid() && fresh(index) && State() == Pending([], []) && w == []
      ensures this.config == config && this.codec == codec && this.flushOnWrite == flushOnWrite
      ensures this.generateIndex == (generateIndex || config.appendIndex)
    {
      this.config, this.codec, this.flushOnWrite := config, codec, flushOnWrite;
      this.generateIndex := generateIndex || config.appendIndex;
      index := new Index.Index();
      w, ibuf, wroteHeader, uncompWritten, compWritten, items := [], [], false, 0, 0, [];
      new;
      index.Reset(config.blockSize);
      IndexedStart(config.blockSize, codec);
    }

    method WriteTracked(p: seq<byte>)
      modifies `w, `compWritten
      ensures w == old(w) + p && compWritten == old(compWritten) + |p|
    {
      w := w + p;
      compWritten := compWritten + |p|;
    }

    method EnsureHeader()
      requires Steady()
      modifies `w, `compWritten, `wroteHeader
      ensures Steady() && wroteHeader && config.blockSize >= 1
    {
      hide Indexed, ValidCodec, ValidItems, HeaderBytes;
      if !wroteHeader {
        IndexedStart(config.blockSize, codec);
        WriteTracked(StreamHeader(config.blockSize));
        wroteHeader := true;
      }
    }

    /** Writes one block, compressed if the encoder found a smaller form, and records its start. */
    method EmitBlock(block: seq<byte>)
      requires Steady() && wroteHeader && 1 <= |block| <= config.blockSize
      requires Addressable(codec, items + [Data(block)])
      modifies `w, `compWritten, index
      ensures w == old(w) + BlockBytes(codec, block) && compWritten == |w|
      ensures generateIndex ==> Indexed(index.Contents(), config.blockSize, codec, items + [Data(block)])
    {
      hide ValidCodec, ValidItems, HeaderBytes, ItemsBytes, Content, Addressable, Add, AddAll, Calls, Crc.Checksum;
      if generateIndex {
        IndexedAppend(index.Contents(), config.blockSize, codec, items, block);
        var r := index.Add(compWritten, uncompWritten);
      }
      var crc := Crc.Checksum(block);
      var encoded := codec(block);
      if encoded.Some? {
        WriteTracked(BlockHeader(CHUNK_TYPE_COMPRESSED_DATA, CHECKSUM_SIZE + |encoded.value|, crc));
        WriteTracked(encoded.value);
      } else {
        WriteTracked(BlockHeader(CHUNK_TYPE_UNCOMPRESSED_DATA, CHECKSUM_SIZE + |block|, crc));
        WriteTracked(block);
      }
      BlockWritten(old(w), codec, block);
    }

    method WriteBlock(block: seq<byte>)
      requires Steady() && wroteHeader && 1 <= |block| <= config.blockSize
      requires Addressable(codec, items + [Data(block)])
      modifies `w, `compWritten, `uncompWritten, `items, index
      ensures Steady() && wroteHeader && items == old(items) + [Data(block)]
    {
      hide Indexed, ValidCodec, ValidItems, HeaderBytes, ItemsBytes, Content, Addressable, BlockBytes, Calls;
      EmitBlock(block);
      CallsAppend(config.blockSize, codec, items, block);
      OneValid(items, block, config.blockSize);
      assert w == HeaderBytes(config.blockSize) + (ItemsBytes(codec, items) + BlockBytes(codec, block));
      items := items + [Data(block)];
      uncompWritten := uncompWritten + |block|;
    }

    /** Writes `data` as blocks of at most the block size. */
    method WriteBlocks(data: seq<byte>)
      requires Steady() && Addressable(codec, items + Pieces(data, config.blockSize))
      modifies `w, `compWritten, `uncompWritten, `wroteHeader, `items, index
      ensures Steady() && wroteHeader && items == old(items) + Pieces(data, config.blockSize)
    {
      hide Steady, Addressable, Pieces;
      EnsureHeader();
      var rest := data;
      ghost var all := items + Pieces(data, config.blockSize);
      while rest != []
        invariant Steady() && wroteHeader && items + Pieces(rest, config.blockSize) == all
      {
        var n := if |rest| <= config.blockSize then |rest| else config.blockSize;
        var block := rest[..n];
        PiecesStep(rest, config.blockSize);
        assert items + [Data(block)] + Pieces(rest[n..], config.blockSize) == all;
        AddressablePrefix(codec, items + [Data(block)], Pieces(rest[n..], config.blockSize));
        WriteBlock(block);
        rest := rest[n..];
      }
      NoPieces(items, config.blockSize);
    }

    /** Writes the buffered input, if any, as the next block. */
    method FlushIbuf()
      requires Steady() && Addressable(codec, Flushed(State(), config.blockSize).items)
      modifies this, index
      ensures Steady() && State() == old(Flushed(State(), config.blockSize)) && (wroteHeader || !old(wroteHeader))
    {
      hide Indexed, ValidCodec, ValidItems, HeaderBytes, ItemsBytes, Content, Addressable, Pieces;
      if ibuf == [] {
        NoPieces(items, config.blockSize);
        return;
      }
      var buf := ibuf;
      WriteBlocks(buf);
      ibuf := [];
    }

    /** Buffers and emits `p`; with flush-on-write it is emitted at once.  Returns the bytes accepted,
        which are all of them. */
    method Write(p: seq<byte>) returns (n: nat)
      requires Valid()
      requires Addressable(codec, (if flushOnWrite then AcceptNow(State(), p, config.blockSize)
                                   else Accept(State(), p, config.blockSize)).items)
      modifies this, index
      ensures Valid() && n == |p|
      ensures State() == if flushOnWrite then old(AcceptNow(State(), p, config.blockSize))
                         else old(Accept(State(), p, config.blockSize))
    {
      hide Indexed, ValidCodec, ValidItems, HeaderBytes, ItemsBytes, Content, Addressable, Pieces, Cut, CutsAt;
      var size := config.blockSize;
      if p == [] {
        NothingAccepted(State(), size);
        return 0;
      }
      if flushOnWrite {
        WriteBlocks(p);
        return |p|;
      }
      ghost var goal := Accept(State(), p, size);
      n := 0;
      assert p[0..] == p;
      while n < |p|
        invariant n <= |p| && Valid() && Accept(State(), p[n..], size) == goal
        decreases |p| - n
      {
        var rest := p[n..];
        var free := size - |ibuf|;
        if ibuf == [] && |rest| >= size {
          var k := |rest| - |rest| % size;
          RoundDown(|rest|, size);
          WholeBlocks(rest, |rest| / size, size);
          TakeWhole(State(), rest, k, size);
          AddressablePrefix(codec, items + Pieces(rest[..k], size), Cut(rest[k..], size).0);
          WriteBlocks(rest[..k]);
          assert p[n..][k..] == p[n + k..];
          n := n + k;
          continue;
        }
        var take := if |rest| <= free then |rest| else free;
        TakeSome(State(), rest, take, size);
        assert p[n..][take..] == p[n + take..];
        ibuf := ibuf + rest[..take];
        n := n + take;
        if |ibuf| == size {
          TakeFull(State(), p[n..], size);
          AddressablePrefix(codec, items + Pieces(ibuf, size), Cut(p[n..], size).0);
          FlushIbuf();
        }
      }
      assert p[n..] == [];
      NothingAccepted(State(), size);
    }

    /** Emits buffered input as a block. */
    method Flush()
      requires Valid() && Addressable(codec, Flushed(State(), config.blockSize).items)
      modifies this, index
      ensures Valid() && State() == old(Flushed(State(), config.blockSize))
    {
      FlushIbuf();
    }

    /** Adds a user chunk after everything written so far; a bad id or size changes nothing. */
    method AddUserChunk(id: byte, body: seq<byte>) returns (r: Result<(), UserError>)
      requires Valid()
      requires ValidItem(User(id, body), config.blockSize) ==> Addressable(codec, Flushed(State(), config.blockSize).items)
      modifies this, index
      ensures Valid()
      ensures var valid := ValidItem(User(id, body), config.blockSize);
              && r == (if valid then Ok(()) else Err(InvalidInput))
              && State() == if valid then old(WithUser(State(), id, body, config.blockSize)) else old(State())
    {
      hide Indexed, ValidCodec, ValidItems, HeaderBytes, ItemsBytes, Content, Addressable, Pieces;
      if !(MIN_USER_SKIPPABLE_CHUNK <= id <= MAX_USER_NON_SKIPPABLE_CHUNK) {
        return Err(InvalidInput);
      }
      if |body| > MAX_USER_CHUNK_SIZE {
        return Err(InvalidInput);
      }
      FlushIbuf();
      EmitUser(id, body);
      return Ok(());
    }

    method EmitUser(id: byte, body: seq<byte>)
      requires Steady() && ValidItem(User(id, body), config.blockSize)
      modifies `w, `compWritten, `wroteHeader, `items
      ensures Steady() && items == old(items) + [User(id, body)]
    {
      hide Indexed, ValidCodec, ValidItems, HeaderBytes, ItemsBytes, Content, Low8;
      EnsureHeader();
      ghost var before := w;
      WriteTracked([id, Low8(|body|), Low8(|body| / 0x100), Low8(|body| / 0x1_0000)]);
      WriteTracked(body);
      assert w == before + Framed(id, body);
      UserWritten(config.blockSize, codec, items, id, body, generateIndex, index.Contents());
      assert w == HeaderBytes(config.blockSize) + (ItemsBytes(codec, items) + Framed(id, body));
      items := items + [User(id, body)];
    }

    method EmitEof()
      modifies `w, `compWritten
      requires IndexWire.Small(uncompWritten)
      ensures w == old(w) + EofBytes(uncompWritten) && compWritten == old(compWritten) + |EofBytes(uncompWritten)|
    {
      var tmp := PutUvarint([], uncompWritten);
      EofShort(uncompWritten);
      WriteTracked([CHUNK_TYPE_EOF, |tmp|, 0, 0] + tmp);
    }

    /** Appends one padding chunk of zeros so that the counted size becomes a multiple. */
    method EmitPadding()
      requires config.padding <= MAX_BLOCK_SIZE
      modifies `w, `compWritten
      ensures w == old(w) + PaddingBytes(old(compWritten), config.padding)
    {
      hide RoomForHeader, Low8;
      if config.padding < 2 {
        return;
      }
      if compWritten % config.padding == 0 {
        return;
      }
      var toAdd := PaddingSize(compWritten, config.padding);
      if toAdd > MAX_BLOCK_SIZE + CHUNK_HEADER_SIZE {
        return;
      }
      var bodyLen: nat := toAdd - CHUNK_HEADER_SIZE;
      PaddingIs(compWritten, config.padding, bodyLen);
      WriteTracked([CHUNK_TYPE_PADDING, Low8(bodyLen), Low8(bodyLen / 0x100), Low8(bodyLen / 0x1_0000)]);
      ghost var start := w;
      var remaining := bodyLen;
      assert start + Zeros(0) == start;
      while remaining > 0
        invariant 0 <= remaining <= bodyLen && w == start + Zeros(bodyLen - remaining)
      {
        var n := if remaining <= 4096 then remaining else 4096;
        WriteTracked(Zeros(n));
        assert start + Zeros(bodyLen - remaining) + Zeros(n) == start + Zeros(bodyLen - remaining + n);
        remaining := remaining - n;
      }
    }

    /** Serialises the index over the chunks written so far. */
    method BuildIndex(ghost all: seq<Item>) returns (indexBytes: seq<byte>)
      requires ValidConfig(config) && ValidCodec(codec) && ValidItems(all, config.blockSize) && Addressable(codec, all)
      requires Indexed(index.Contents(), config.blockSize, codec, all)
      requires uncompWritten == |Content(all)| && compWritten == |DataBytes(config.blockSize, codec, all)|
      modifies index
      ensures indexBytes == IndexBytes(config, codec, all) && |indexBytes| > 0
    {
      hide Indexed, ValidCodec, ValidItems, Content, DataBytes, Addressable, FinalTable, IndexWire.Serialize, IndexBytes, IndexWire.SmallTable;
      var total := CompressedTotal(config.padding, compWritten);
      StreamSmall(config.blockSize, codec, all);
      IndexedFinal(index.Contents(), config.blockSize, codec, all);
      var r;
      r, indexBytes := index.AppendTo([], Some(uncompWritten), total);
      AppendedFirst(config, codec, all, total, indexBytes);
    }

    /** Everything up to the EOF chunk. */
    method EmitData()
      requires Valid() && Addressable(codec, Flushed(State(), config.blockSize).items)
      modifies this, index
      ensures items == old(Flushed(State(), config.blockSize)).items && ValidItems(items, config.blockSize)
      ensures ValidConfig(config) && ValidCodec(codec) && Addressable(codec, items)
      ensures w == DataBytes(config.blockSize, codec, items) && compWritten == |w| && uncompWritten == |Content(items)|
      ensures generateIndex ==> Indexed(index.Contents(), config.blockSize, codec, items)
    {
      hide Indexed, ValidCodec, ValidItems, HeaderBytes, ItemsBytes, Content, Addressable, Pieces, EofBytes;
      FlushIbuf();
      EnsureHeader();
      StreamSmall(config.blockSize, codec, items);
      EmitEof();
    }

    /** Ends the stream: remaining input, EOF, padding that makes room for the index, and the index. */
    method CloseInner(buildIndex: bool) returns (indexBytes: seq<byte>)
      requires Valid() && Addressable(codec, Flushed(State(), config.blockSize).items)
      requires config.appendIndex ==> buildIndex
      requires buildIndex ==> generateIndex
      modifies this, index
      ensures var all := old(Flushed(State(), config.blockSize)).items;
              && w == FinishedBytes(config, codec, all)
              && indexBytes == if buildIndex then IndexBytes(config, codec, all) else []
    {
      hide Indexed, ValidCodec, ValidItems, DataBytes, Content, Addressable, Flushed, PaddingBytes, IndexBytes, AppendedIndex,
           Writer.Steady, Writer.Valid;
      EmitData();
      ghost var all := items;
      IndexAppended(config, codec, all);
      indexBytes := [];
      if buildIndex {
        indexBytes := BuildIndex(all);
      }
      EmitTrailer(indexBytes);
    }

    /** The padding, which leaves room for an appended index, and that index. */
    method EmitTrailer(indexBytes: seq<byte>)
      requires config.padding <= MAX_BLOCK_SIZE && compWritten == |w|
      modifies `w, `compWritten
      ensures var appended := if config.appendIndex then indexBytes else [];
              w == old(w) + PaddingBytes(|old(w)| + |appended|, config.padding) + appended
    {
      hide PaddingBytes;
      if config.appendIndex {
        compWritten := compWritten + |indexBytes|;
      }
      EmitPadding();
      if config.appendIndex && |indexBytes| > 0 {
        w := w + indexBytes;
      }
    }

    /** `finish`: the sink now holds the whole stream. */
    method Finish() returns (sink: seq<byte>)
      requires Valid() && Addressable(codec, Flushed(State(), config.blockSize).items)
      modifies this, index
      ensures sink == FinishedBytes(config, codec, old(Flushed(State(), config.blockSize)).items)
    {
      var _ := CloseInner(config.appendIndex);
      return w;
    }

    /** `close_index`: like `finish`, and returns the index as well if there is one. */
    method CloseIndex() returns (r: Result<seq<byte>, UserError>)
      requires Valid() && Addressable(codec, Flushed(State(), config.blockSize).items)
      modifies this, index
      ensures r == if generateIndex then Ok(IndexBytes(config, codec, old(Flushed(State(), config.blockSize)).items))
                   else Err(InvalidInput)
      ensures r.Ok? ==> w == FinishedBytes(config, codec, old(Flushed(State(), config.blockSize)).items)
    {
      if !generateIndex {
        return Err(InvalidInput);
      }
      var b := CloseInner(true);
      return Ok(b);
    }
  }

  lemma IndexAppended(c: Config, codec: Codec, items: seq<Item>)
    requires ValidConfig(c)
    ensures AppendedIndex(c, codec, items) == if c.appendIndex then IndexBytes(c, codec, items) else []
  {
  }

  lemma UserWritten(blockSize: nat, codec: Codec, items: seq<Item>, id: byte, body: seq<byte>, indexed: bool, t: Table)
    requires MIN_BLOCK_SIZE <= blockSize <= MAX_BLOCK_SIZE && ValidItems(items, blockSize)
    requires ValidItem(User(id, body), blockSize) && (indexed ==> Indexed(t, blockSize, codec, items))
    ensures ValidItems(items + [User(id, body)], blockSize)
    ensures ItemsBytes(codec, items + [User(id, body)]) == ItemsBytes(codec, items) + Framed(id, body)
    ensures Content(items + [User(id, body)]) == Content(items)
    ensures indexed ==> Indexed(t, blockSize, codec, items + [User(id, body)])
  {
    hide Calls, ItemsBytes, Content;
    CallsSkipUser(blockSize, codec, items, id, body);
  }

  lemma EofShort(total: nat)
    requires IndexWire.Small(total)
    ensures EofBytes(total) == [CHUNK_TYPE_EOF, |Uvarint(total)|, 0, 0] + Uvarint(total)
    ensures [] + Uvarint(total) == Uvarint(total)
  {
    hide Uvarint;
    IndexWire.UvarintAtMostTen(total);
  }

  /** The size of the padding chunk. */
  method PaddingSize(written: nat, multiple: nat) returns (toAdd: nat)
    requires multiple >= 2
    ensures toAdd == RoomForHeader(multiple - written % multiple, multiple)
  {
    hide RoomForHeader;
    var leftover := written % multiple;
    toAdd := multiple - leftover;
    RoomStep(toAdd, multiple);
    while toAdd < CHUNK_HEADER_SIZE
      invariant RoomForHeader(toAdd, multiple) == RoomForHeader(multiple - leftover, multiple)
      invariant toAdd >= CHUNK_HEADER_SIZE ==> RoomForHeader(toAdd, multiple) == toAdd
      decreases SaturatingSub(CHUNK_HEADER_SIZE, toAdd)
    {
      RoomStep(toAdd, multiple);
      toAdd := toAdd + multiple;
      RoomStep(toAdd, multiple);
    }
  }

  lemma PaddingIs(written: nat, multiple: nat, bodyLen: nat)
    requires 2 <= multiple && written % multiple != 0
    requires bodyLen <= MAX_BLOCK_SIZE
    requires RoomForHeader(multiple - written % multiple, multiple) == bodyLen + CHUNK_HEADER_SIZE
    ensures PaddingBytes(written, multiple) ==
            [CHUNK_TYPE_PADDING, Low8(bodyLen), Low8(bodyLen / 0x100), Low8(bodyLen / 0x1_0000)] + Zeros(bodyLen)
  {
    hide RoomForHeader, Low8;
    assert PaddingBytes(written, multiple) == Framed(CHUNK_TYPE_PADDING, Zeros(bodyLen));
    assert |Zeros(bodyLen)| == bodyLen;
  }

  lemma RoomStep(toAdd: nat, multiple: nat)
    requires multiple >= 2
    ensures RoomForHeader(toAdd, multiple) ==
            if toAdd >= CHUNK_HEADER_SIZE then toAdd else RoomForHeader(toAdd + multiple, multiple)
  {
  }

  lemma IndexedFinal(t: Table, blockSize: nat, codec: Codec, items: seq<Item>)
    requires MIN_BLOCK_SIZE <= blockSize <= MAX_BLOCK_SIZE && ValidItems(items, blockSize) && ValidCodec(codec)
    requires Addressable(codec, items) && Indexed(t, blockSize, codec, items)
    ensures FinalTable(blockSize, codec, items) == Reduce(t) && IndexWire.SmallTable(Reduce(t)) && Sorted(t.entries)
  {
    hide ValidCodec, Calls, AddAll, Addressable, IndexWire.SmallTable, Spaced, Reduce, Content;
    FinalTableFacts(blockSize, codec, items);
  }

  lemma AppendedFirst(c: Config, codec: Codec, items: seq<Item>, total: Option<nat>, out: seq<byte>)
    requires ValidConfig(c) && total == CompressedTotal(c.padding, |DataBytes(c.blockSize, codec, items)|)
    requires out == [] + IndexWire.Serialize(FinalTable(c.blockSize, codec, items), Some(|Content(items)|), total)
    ensures out == IndexBytes(c, codec, items) && |out| > 0
  {
    hide FinalTable, Content, DataBytes, IndexWire.Payload;
  }

  /** The pieces `EmitBlock` writes make up the block chunk. */
  lemma BlockWritten(before: seq<byte>, codec: Codec, block: seq<byte>)
    ensures var crc, e := Crc.Checksum(block), codec(block);
            before + BlockBytes(codec, block) ==
            (if e.Some? then before + BlockHeader(CHUNK_TYPE_COMPRESSED_DATA, CHECKSUM_SIZE + |e.value|, crc) + e.value
             else before + BlockHeader(CHUNK_TYPE_UNCOMPRESSED_DATA, CHECKSUM_SIZE + |block|, crc) + block)
  {
  }

  lemma PiecesStep(data: seq<byte>, size: nat)
    requires data != [] && size >= 1
    ensures var n := if |data| <= size then |data| else size;
            Pieces(data, size) == [Data(data[..n])] + Pieces(data[n..], size)
  {
    if |data| <= size {
      assert data[..|data|] == data && data[|data|..] == [];
    }
  }

  lemma NoPieces(items: seq<Item>, size: nat)
    requires size >= 1
    ensures items + Pieces([], size) == items
  {
  }

  lemma OneValid(items: seq<Item>, block: seq<byte>, size: nat)
    requires ValidItems(items, size) && 1 <= |block| <= size
    ensures ValidItems(items + [Data(block)], size)
  {
  }

  lemma NothingAccepted(s: Pending, size: nat)
    requires size >= 1 && |s.buffer| < size
    ensures Accept(s, [], size) == s && AcceptNow(s, [], size) == s
  {
    assert s.buffer + [] == s.buffer;
    assert s.items + [] == s.items;
  }

  lemma RoundDown(n: nat, size: nat)
    requires size >= 1
    ensures n - n % size == n / size * size && (n >= size ==> n - n % size > 0)
  {
  }

  /** Moving `k` bytes of the input into the buffer. */
  lemma TakeSome(s: Pending, p: seq<byte>, k: nat, size: nat)
    requires size >= 1 && k <= |p|
    ensures Accept(Pending(s.items, s.buffer + p[..k]), p[k..], size) == Accept(s, p, size)
  {
    assert s.buffer + p[..k] + p[k..] == s.buffer + p;
  }

  /** Flushing a full buffer. */
  lemma TakeFull(s: Pending, p: seq<byte>, size: nat)
    requires size >= 1 && |s.buffer| == size
    ensures Accept(Flushed(s, size), p, size) == Accept(s, p, size)
    ensures Accept(s, p, size).items == s.items + Pieces(s.buffer, size) + Cut(p, size).0
  {
    hide Cut, Pieces;
    FullBuffer(s.buffer, p, size);
    assert [] + p == p;
    var a, b := Pieces(s.buffer, size), Cut(p, size).0;
    assert s.items + (a + b) == s.items + a + b;
  }

  /** Taking `k` bytes of whole blocks past an empty buffer. */
  lemma TakeWhole(s: Pending, p: seq<byte>, k: nat, size: nat)
    requires size >= 1 && s.buffer == [] && k <= |p| && CutsAt(p, k, size)
    ensures Accept(s, p, size) == Accept(Pending(s.items + Pieces(p[..k], size), []), p[k..], size)
    ensures Accept(s, p, size).items == s.items + Pieces(p[..k], size) + Cut(p[k..], size).0
  {
    assert s.buffer + p == p && s.buffer + p[k..] == p[k..];
    assert s.items + (Pieces(p[..k], size) + Cut(p[k..], size).0) == s.items + Pieces(p[..k], size) + Cut(p[k..], size).0;
  }
}
