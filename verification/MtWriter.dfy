/** The multi-threaded writer: the caller's side submits orders, workers encode blocks, and the writer
    thread puts the results on the wire. */
module MtWriter {
  import opened Bytes
  import opened StreamFormat
  import opened StreamSpec
  import opened StreamRoundTrip
  import opened Chunking
  import opened IndexTable
  import opened Sessions
  import Crc
  import Index
  import IndexWire
  import SW = StreamWriter
  import P = Pipeline

  /** What reaches the writer thread: bytes as they are, or an encoded block. */
  datatype Received = Raw(bytes: seq<byte>) | Encoded(hdr: seq<byte>, body: seq<byte>, uncompLen: nat)

  type Order = P.Entry<seq<byte>, Received>

  // -------- workers --------

  /** The worker's answer to a block. */
  function Encode(codec: Codec, block: seq<byte>): Received {
    var crc, encoded := Crc.Checksum(block), codec(block);
    if encoded.Some? then
      Encoded(SW.BlockHeader(CHUNK_TYPE_COMPRESSED_DATA, CHECKSUM_SIZE + |encoded.value|, crc), encoded.value, |block|)
    else Encoded(SW.BlockHeader(CHUNK_TYPE_UNCOMPRESSED_DATA, CHECKSUM_SIZE + |block|, crc), block, |block|)
  }

  /** The header that marks a worker's failure. */
  predicate IsErrorMarker(r: Received) {
    r.Encoded? && |r.hdr| >= 4 && r.hdr[0] == 0xff && r.hdr[1] == 0 && r.hdr[2] == 0 && r.hdr[3] == 0
  }

  /** Header and body together are the chunk the single-threaded writer writes, and are never taken
      for a failure. */
  lemma EncodedBytes(codec: Codec, block: seq<byte>)
    ensures var r := Encode(codec, block);
            r.Encoded? && r.hdr + r.body == BlockBytes(codec, block) && r.uncompLen == |block| && !IsErrorMarker(r)
  {
    hide Crc.Checksum, Low8;
    SW.BlockWritten([], codec, block);
    assert [] + BlockBytes(codec, block) == BlockBytes(codec, block);
  }

  lemma BlockOrder(items: seq<Item>, block: seq<byte>)
    ensures OrdersOf(items + [Data(block)]) == OrdersOf(items) + [P.Job(block)]
  {
  }

  lemma UserOrder(items: seq<Item>, id: byte, body: seq<byte>)
    ensures OrdersOf(items + [User(id, body)]) == OrdersOf(items) + [P.Direct(Raw(Framed(id, body)))]
    ensures [id, Low8(|body|), Low8(|body| / 0x100), Low8(|body| / 0x1_0000)] + body == Framed(id, body)
  {
    hide Low8;
  }

  // -------- orders --------

  function OrderOf(item: Item): Order {
    match item
    case Data(block) => P.Job(block)
    case User(id, body) => P.Direct(Raw(Framed(id, body)))
  }

  function OrdersOf(items: seq<Item>): (r: seq<Order>)
    ensures |r| == |items|
    ensures forall k :: 0 <= k < |items| ==> r[k] == OrderOf(items[k])
  {
    seq(|items|, k requires 0 <= k < |items| => OrderOf(items[k]))
  }

  /** All orders of a finished stream. */
  function AllOrders(blockSize: nat, items: seq<Item>): seq<Order>
    requires MIN_BLOCK_SIZE <= blockSize <= MAX_BLOCK_SIZE
  {
    [P.Direct(Raw(HeaderBytes(blockSize)))] + OrdersOf(items) + [P.Direct(Raw(EofBytes(|Content(items)|)))]
  }

  function ReceivedFor(codec: Codec, item: Item): Received {
    match item
    case Data(block) => Encode(codec, block)
    case User(id, body) => Raw(Framed(id, body))
  }

  /** What the writer thread receives for a finished stream. */
  predicate AllReceived(blockSize: nat, codec: Codec, items: seq<Item>, received: seq<Received>)
    requires MIN_BLOCK_SIZE <= blockSize <= MAX_BLOCK_SIZE
  {
    && |received| == |items| + 2
    && received[0] == Raw(HeaderBytes(blockSize))
    && (forall k :: 0 <= k < |items| ==> received[k + 1] == ReceivedFor(codec, items[k]))
    && received[|items| + 1] == Raw(EofBytes(|Content(items)|))
  }

  // -------- the caller's side --------

  class MtWriter {
    const config: Config
    const codec: Codec
    var ibuf: seq<byte>
    /** What has been pushed into the order queue so far. */
    var orders: seq<Order>
    var uncompWritten: nat
    var wroteHeader: bool
    ghost var items: seq<Item>

    ghost predicate Steady()
      reads this
    {
      && ValidConfig(config) && ValidItems(items, config.blockSize)
      && orders == (if wroteHeader then [P.Direct(Raw(HeaderBytes(config.blockSize)))] + OrdersOf(items) else [])
      && (!wroteHeader ==> items == []) && uncompWritten == |Content(items)|
    }

    ghost predicate Valid()
      reads this
    {
      Steady() && |ibuf| < config.blockSize
    }

    ghost function State(): Pending
      reads this
    {
      Pending(items, ibuf)
    }

    constructor (config: Config, codec: Codec)
      requires ValidConfig(config)
      ensures Valid() && State() == Pending([], []) && orders == [] && this.config == config && this.codec == codec
    {
      this.config, this.codec := config, codec;
      ibuf, orders, uncompWritten, wroteHeader, items := [], [], 0, false, [];
    }

    method SubmitRaw(bytes: seq<byte>)
      modifies `orders
      ensures orders == old(orders) + [P.Direct(Raw(bytes))]
    {
      orders := orders + [P.Direct(Raw(bytes))];
    }

    method EnsureHeader()
      requires Steady()
      modifies `orders, `wroteHeader
      ensures Steady() && wroteHeader && config.blockSize >= 1
    {
      hide ValidItems, HeaderBytes, Content;
      if wroteHeader {
        return;
      }
      wroteHeader := true;
      SubmitRaw(SW.StreamHeader(config.blockSize));
    }

    method SubmitBlock(block: seq<byte>)
      requires Steady() && wroteHeader && 1 <= |block| <= config.blockSize
      modifies `orders, `uncompWritten, `items
      ensures Steady() && items == old(items) + [Data(block)]
    {
      hide ValidItems, HeaderBytes, Content, ItemsBytes, BlockBytes, OrdersOf;
      uncompWritten := uncompWritten + |block|;
      orders := orders + [P.Job(block)];
      SW.OneValid(items, block, config.blockSize);
      SW.BytesAppend(codec, items, block);
      BlockOrder(items, block);
      items := items + [Data(block)];
    }

    method WriteBlocks(data: seq<byte>)
      requires Steady()
      modifies `orders, `wroteHeader, `uncompWritten, `items
      ensures Steady() && wroteHeader && items == old(items) + Pieces(data, config.blockSize)
    {
      hide Steady, Pieces;
      EnsureHeader();
      var rest := data;
      ghost var all := items + Pieces(data, config.blockSize);
      while rest != []
        invariant Steady() && wroteHeader && items + Pieces(rest, config.blockSize) == all
      {
        var n := if |rest| <= config.blockSize then |rest| else config.blockSize;
        SW.PiecesStep(rest, config.blockSize);
        assert items + [Data(rest[..n])] + Pieces(rest[n..], config.blockSize) == all;
        SubmitBlock(rest[..n]);
        rest := rest[n..];
      }
      SW.NoPieces(items, config.blockSize);
    }

    method FlushIbuf()
      requires Steady()
      modifies this
      ensures Steady() && State() == old(Flushed(State(), config.blockSize)) && (wroteHeader || !old(wroteHeader))
    {
      hide ValidItems, HeaderBytes, Content, Pieces;
      if ibuf == [] {
        SW.NoPieces(items, config.blockSize);
        return;
      }
      WriteBlocks(ibuf);
      ibuf := [];
    }

    method Write(p: seq<byte>) returns (n: nat)
      requires Valid()
      modifies this
      ensures Valid() && n == |p| && State() == old(Accept(State(), p, config.blockSize))
    {
      hide ValidItems, HeaderBytes, Content, Pieces, Cut, CutsAt;
      var size := config.blockSize;
      if p == [] {
        SW.NothingAccepted(State(), size);
        return 0;
      }
      ghost var goal := Accept(State(), p, size);
      n := 0;
      assert p[0..] == p;
      while n < |p|
        invariant n <= |p| && Valid() && Accept(State(), p[n..], size) == goal
        decreases |p| - n
      {
        var rest := p[n..];
        var free := size - |ibuf|;
        if ibuf == [] && |rest| >= size {
          var k := |rest| - |rest| % size;
          SW.RoundDown(|rest|, size);
          WholeBlocks(rest, |rest| / size, size);
          SW.TakeWhole(State(), rest, k, size);
          WriteBlocks(rest[..k]);
          assert p[n..][k..] == p[n + k..];
          n := n + k;
          continue;
        }
        var take := if |rest| <= free then |rest| else free;
        SW.TakeSome(State(), rest, take, size);
        assert p[n..][take..] == p[n + take..];
        ibuf := ibuf + rest[..take];
        n := n + take;
        if |ibuf| == size {
          SW.TakeFull(State(), p[n..], size);
          FlushIbuf();
        }
      }
      assert p[n..] == [];
      SW.NothingAccepted(State(), size);
    }

    method Flush()
      requires Valid()
      modifies this
      ensures Valid() && State() == old(Flushed(State(), config.blockSize))
    {
      FlushIbuf();
    }

    /** Flushes what is buffered and submits `buf` in blocks of its own. */
    method EncodeBuffer(buf: seq<byte>)
      requires Valid()
      modifies this
      ensures Valid() && State() == old(AcceptNow(Flushed(State(), config.blockSize), buf, config.blockSize))
    {
      FlushIbuf();
      WriteBlocks(buf);
    }

    method AddUserChunk(id: byte, body: seq<byte>) returns (r: Result<(), SW.UserError>)
      requires Valid()
      modifies this
      ensures Valid()
      ensures var valid := ValidItem(User(id, body), config.blockSize);
              && r == (if valid then Ok(()) else Err(SW.InvalidInput))
              && State() == if valid then old(WithUser(State(), id, body, config.blockSize)) else old(State())
    {
      hide ValidItems, HeaderBytes, Content, Pieces, Low8;
      if !(MIN_USER_SKIPPABLE_CHUNK <= id <= MAX_USER_NON_SKIPPABLE_CHUNK) {
        return Err(SW.InvalidInput);
      }
      if |body| > MAX_USER_CHUNK_SIZE {
        return Err(SW.InvalidInput);
      }
      FlushIbuf();
      SubmitUser(id, body);
      return Ok(());
    }

    method SubmitUser(id: byte, body: seq<byte>)
      requires Steady() && ValidItem(User(id, body), config.blockSize)
      modifies `orders, `wroteHeader, `items
      ensures Steady() && items == old(items) + [User(id, body)]
    {
      hide ValidItems, HeaderBytes, Content, Low8, OrdersOf, Framed, ItemsBytes;
      EnsureHeader();
      SubmitRaw([id, Low8(|body|), Low8(|body| / 0x100), Low8(|body| / 0x1_0000)] + body);
      SW.UserWritten(config.blockSize, codec, items, id, body, false, Table([], 0));
      UserOrder(items, id, body);
      items := items + [User(id, body)];
    }

    /** Everything `finish` submits before it closes the channels. */
    method Finish() returns (all: seq<Order>)
      requires Valid() && Addressable(codec, Flushed(State(), config.blockSize).items)
      modifies this
      ensures all == AllOrders(config.blockSize, old(Flushed(State(), config.blockSize)).items)
    {
      hide ValidItems, HeaderBytes, ItemsBytes, Content, Pieces, EofBytes, Addressable;
      FlushIbuf();
      EnsureHeader();
      StreamSmall(config.blockSize, codec, items);
      var tmp := PutUvarint([], uncompWritten);
      SW.EofShort(uncompWritten);
      SubmitRaw([CHUNK_TYPE_EOF, |tmp|, 0, 0] + tmp);
      return orders;
    }
  }

  // -------- the writer thread --------

  /** The padding chunk, with the counted size it depends on. */
  method EmitMtPadding(w: seq<byte>, compWritten: nat, multiple: nat) returns (out: seq<byte>)
    requires 2 <= multiple <= MAX_BLOCK_SIZE
    ensures out == w + PaddingBytes(compWritten, multiple)
  {
    hide RoomForHeader, Low8;
    if compWritten % multiple == 0 {
      return w;
    }
    var toAdd := SW.PaddingSize(compWritten, multiple);
    if toAdd > MAX_BLOCK_SIZE + CHUNK_HEADER_SIZE {
      return w;
    }
    var bodyLen: nat := toAdd - CHUNK_HEADER_SIZE;
    SW.PaddingIs(compWritten, multiple, bodyLen);
    out := w + [CHUNK_TYPE_PADDING, Low8(bodyLen), Low8(bodyLen / 0x100), Low8(bodyLen / 0x1_0000)];
    ghost var start := out;
    var remaining := bodyLen;
    assert start + Zeros(0) == start;
    while remaining > 0
      invariant 0 <= remaining <= bodyLen && out == start + Zeros(bodyLen - remaining)
    {
      var n := if remaining <= 4096 then remaining else 4096;
      out := out + Zeros(n);
      assert start + Zeros(bodyLen - remaining) + Zeros(n) == start + Zeros(bodyLen - remaining + n);
      remaining := remaining - n;
    }
  }

  /** The items behind the first `i` receptions, and the bytes they make up. */
  ghost function ItemsSoFar(items: seq<Item>, i: nat): seq<Item> {
    if i == 0 then [] else if i - 1 <= |items| then items[..i - 1] else items
  }

  ghost function BytesSoFar(blockSize: nat, codec: Codec, items: seq<Item>, i: nat): seq<byte>
    requires MIN_BLOCK_SIZE <= blockSize <= MAX_BLOCK_SIZE
  {
    if i == 0 then []
    else if i <= |items| + 1 then HeaderBytes(blockSize) + ItemsBytes(codec, ItemsSoFar(items, i))
    else DataBytes(blockSize, codec, items)
  }

  /** What one more reception means. */
  lemma OneReceived(blockSize: nat, codec: Codec, items: seq<Item>, received: seq<Received>, i: nat)
    requires MIN_BLOCK_SIZE <= blockSize <= MAX_BLOCK_SIZE && AllReceived(blockSize, codec, items, received) && i < |received|
    ensures var now, next := ItemsSoFar(items, i), ItemsSoFar(items, i + 1);
            match received[i]
            case Raw(bytes) =>
              && BytesSoFar(blockSize, codec, items, i + 1) == BytesSoFar(blockSize, codec, items, i) + bytes
              && Content(next) == Content(now) && Calls(blockSize, codec, next) == Calls(blockSize, codec, now)
            case Encoded(hdr, body, n) =>
              && 1 <= i <= |items| && items[i - 1].Data?
              && var block := items[i - 1].block;
                 && received[i] == Encode(codec, block) && next == now + [Data(block)]
                 && BytesSoFar(blockSize, codec, items, i + 1) == BytesSoFar(blockSize, codec, items, i) + BlockBytes(codec, block)
                 && Content(next) == Content(now) + block
  {
    hide HeaderBytes, EofBytes, Encode, BlockBytes, Framed, Calls, ItemsBytes, Content;
    var now, next := ItemsSoFar(items, i), ItemsSoFar(items, i + 1);
    if i == 0 {
      SW.IndexedStart(blockSize, codec);
      assert HeaderBytes(blockSize) + [] == [] + HeaderBytes(blockSize);
    } else if i <= |items| {
      var item := items[i - 1];
      assert received[(i - 1) + 1] == ReceivedFor(codec, item);
      assert next == now + [item];
      match item {
        case Data(block) =>
          EncodedBytes(codec, block);
          SW.BytesAppend(codec, now, block);
        case User(id, body) => SW.CallsSkipUser(blockSize, codec, now, id, body);
      }
    } else {
      assert now == items == next;
    }
  }

  lemma PartOfAll(blockSize: nat, codec: Codec, items: seq<Item>, i: nat)
    requires i <= |items| && ValidItems(items, blockSize) && Addressable(codec, items)
    ensures ValidItems(items[..i], blockSize) && Addressable(codec, items[..i])
  {
    hide Addressable;
    assert items == items[..i] + items[i..];
    SW.AddressablePrefix(codec, items[..i], items[i..]);
  }

  /** The writer thread's index, which follows the blocks. */
  ghost predicate Follows(generateIndex: bool, t: Table, blockSize: nat, codec: Codec, items: seq<Item>)
    requires MIN_BLOCK_SIZE <= blockSize <= MAX_BLOCK_SIZE
  {
    generateIndex ==> SW.Indexed(t, blockSize, codec, items)
  }

  /** Records the start of the next block. */
  method RecordBlock(index: Index.Index, generateIndex: bool, compWritten: nat, uncompWritten: nat,
                     ghost blockSize: nat, ghost codec: Codec, ghost items: seq<Item>, ghost block: seq<byte>)
    requires MIN_BLOCK_SIZE <= blockSize <= MAX_BLOCK_SIZE && 1 <= |block| <= blockSize && ValidCodec(codec)
    requires ValidItems(items, blockSize) && Addressable(codec, items + [Data(block)])
    requires Follows(generateIndex, index.Contents(), blockSize, codec, items)
    requires compWritten == |HeaderBytes(blockSize)| + |ItemsBytes(codec, items)| && uncompWritten == |Content(items)|
    modifies index
    ensures Follows(generateIndex, index.Contents(), blockSize, codec, items + [Data(block)])
  {
    hide ValidCodec, ValidItems, HeaderBytes, ItemsBytes, Content, Addressable, IndexTable.Add, AddAll, Calls;
    if generateIndex {
      SW.IndexedAppend(index.Contents(), blockSize, codec, items, block);
      var r := index.Add(compWritten, uncompWritten);
    }
  }

  /** Puts everything received on the wire: the chunks, with an index entry for each block. */
  method DrainOrders(received: seq<Received>, index: Index.Index, generateIndex: bool,
                     ghost c: Config, ghost codec: Codec, ghost items: seq<Item>)
    returns (w: seq<byte>, compWritten: nat, uncompWritten: nat)
    requires ValidConfig(c) && ValidItems(items, c.blockSize) && ValidCodec(codec) && Addressable(codec, items)
    requires AllReceived(c.blockSize, codec, items, received)
    requires index.Contents() == Reset(c.blockSize)
    modifies index
    ensures w == DataBytes(c.blockSize, codec, items) && compWritten == |w| && uncompWritten == |Content(items)|
    ensures Follows(generateIndex, index.Contents(), c.blockSize, codec, items)
  {
    hide ValidItems, ValidCodec, Addressable, HeaderBytes, ItemsBytes, Content, EofBytes, Encode, AllReceived, Calls,
         DataBytes, BlockBytes, AddAll;
    SW.IndexedStart(c.blockSize, codec);
    AllReceivedLength(c.blockSize, codec, items, received);
    w, compWritten, uncompWritten := [], 0, 0;
    for i := 0 to |received|
      invariant w == BytesSoFar(c.blockSize, codec, items, i) && compWritten == |w|
      invariant uncompWritten == |Content(ItemsSoFar(items, i))|
      invariant Follows(generateIndex, index.Contents(), c.blockSize, codec, ItemsSoFar(items, i))
    {
      OneReceived(c.blockSize, codec, items, received, i);
      match received[i] {
        case Raw(bytes) =>
          w := w + bytes;
          compWritten := compWritten + |bytes|;
        case Encoded(hdr, body, uncompLen) =>
          ghost var now, block := ItemsSoFar(items, i), items[i - 1].block;
          EncodedBytes(codec, block);
          PartOfAll(c.blockSize, codec, items, i - 1);
          PartOfAll(c.blockSize, codec, items, i);
          BlockFits(c.blockSize, items, i - 1);
          RecordBlock(index, generateIndex, compWritten, uncompWritten, c.blockSize, codec, now, block);
          w := w + hdr;
          w := w + body;
          compWritten := compWritten + |hdr| + |body|;
          uncompWritten := uncompWritten + uncompLen;
      }
    }
  }

  lemma AllReceivedLength(blockSize: nat, codec: Codec, items: seq<Item>, received: seq<Received>)
    requires MIN_BLOCK_SIZE <= blockSize <= MAX_BLOCK_SIZE && AllReceived(blockSize, codec, items, received)
    ensures |received| == |items| + 2 && ItemsSoFar(items, |items| + 2) == items
  {
  }

  lemma BlockFits(blockSize: nat, items: seq<Item>, k: nat)
    requires k < |items| && ValidItems(items, blockSize) && items[k].Data?
    ensures 1 <= |items[k].block| <= blockSize
  {
    assert items[k] in items;
  }

  /** The writer thread: everything received, then padding that leaves room for the index, then the
      index if it is to be appended. */
  method WriterLoop(received: seq<Received>, c: Config, generateIndex: bool, ghost codec: Codec, ghost items: seq<Item>)
    returns (w: seq<byte>)
    requires ValidConfig(c) && ValidItems(items, c.blockSize) && ValidCodec(codec) && Addressable(codec, items)
    requires AllReceived(c.blockSize, codec, items, received) && (c.appendIndex ==> generateIndex)
    ensures w == FinishedBytes(c, codec, items)
  {
    hide ValidItems, ValidCodec, Addressable, Content, SW.Indexed, AllReceived, FinalTable, IndexWire.SmallTable, IndexWire.Serialize,
         PaddingBytes, IndexBytes, AppendedIndex, DataBytes;
    var index := new Index.Index();
    index.Reset(c.blockSize);
    var compWritten, uncompWritten;
    w, compWritten, uncompWritten := DrainOrders(received, index, generateIndex, c, codec, items);
    SW.IndexAppended(c, codec, items);
    var indexBytes := [];
    if generateIndex {
      var total := CompressedTotal(c.padding, compWritten);
      StreamSmall(c.blockSize, codec, items);
      SW.IndexedFinal(index.Contents(), c.blockSize, codec, items);
      var r;
      r, indexBytes := index.AppendTo([], Some(uncompWritten), total);
      SW.AppendedFirst(c, codec, items, total, indexBytes);
      if c.appendIndex {
        compWritten := compWritten + |indexBytes|;
      } else {
        indexBytes := [];
      }
    }
    ghost var data := w;
    if c.padding > 1 {
      w := EmitMtPadding(w, compWritten, c.padding);
    }
    NoPadding(compWritten, c.padding);
    assert c.padding <= 1 ==> w == data + PaddingBytes(compWritten, c.padding);
    if |indexBytes| > 0 {
      w := w + indexBytes;
    }
  }

  lemma NoPadding(written: nat, multiple: nat)
    ensures multiple <= 1 ==> PaddingBytes(written, multiple) == []
  {
  }

  // -------- the whole writer --------

  /** The pipeline of a writer with `workers` threads over its orders. */
  ghost function System(workers: nat, codec: Codec, orders: seq<Order>, sinkMayFail: bool): P.System<seq<byte>, Received> {
    P.System(workers, orders, block => Encode(codec, block), r => IsErrorMarker(r), sinkMayFail)
  }

  /** The orders' results are what the writer thread expects, and none of them is a failure. */
  lemma OrdersReceived(workers: nat, blockSize: nat, codec: Codec, items: seq<Item>, sinkMayFail: bool)
    requires MIN_BLOCK_SIZE <= blockSize <= MAX_BLOCK_SIZE
    ensures var sys := System(workers, codec, AllOrders(blockSize, items), sinkMayFail);
            AllReceived(blockSize, codec, items, P.Results(sys)) && forall r <- P.Results(sys) :: !sys.bad(r)
  {
    hide HeaderBytes, EofBytes, Encode, Framed, Content;
    var orders := AllOrders(blockSize, items);
    var sys := System(workers, codec, orders, sinkMayFail);
    var results := P.Results(sys);
    forall k | 0 <= k < |items| ensures results[k + 1] == ReceivedFor(codec, items[k]) {
      assert orders[k + 1] == OrderOf(items[k]);
    }
    forall k | 0 <= k < |results| ensures !IsErrorMarker(results[k]) {
      if 1 <= k <= |items| {
        assert results[(k - 1) + 1] == ReceivedFor(codec, items[k - 1]);
        if items[k - 1].Data? {
          EncodedBytes(codec, items[k - 1].block);
        }
      }
    }
  }

  /** For every interleaving and every choice of worker, a completed run hands the writer thread
      exactly what it needs to write the single-threaded writer's bytes; and with a sink that accepts
      everything, every run that has ended is complete. */
  lemma MtMatchesSt(workers: nat, blockSize: nat, codec: Codec, items: seq<Item>, sinkMayFail: bool, run: seq<P.State<Received>>)
    requires workers >= 1 && MIN_BLOCK_SIZE <= blockSize <= MAX_BLOCK_SIZE
    requires P.Run(System(workers, codec, AllOrders(blockSize, items), sinkMayFail), run)
    ensures var last := run[|run| - 1];
            && (P.Succeeded(last) ==> AllReceived(blockSize, codec, items, last.written))
            && (P.Terminal(last) && !sinkMayFail ==> P.Succeeded(last))
            && (P.Terminal(last) || exists t :: P.Step(System(workers, codec, AllOrders(blockSize, items), sinkMayFail), last, t))
  {
    hide AllReceived, P.Step, P.Terminal, AllOrders;
    var sys := System(workers, codec, AllOrders(blockSize, items), sinkMayFail);
    var last := run[|run| - 1];
    OrdersReceived(workers, blockSize, codec, items, sinkMayFail);
    P.WrittenInOrder(sys, run);
    P.StuckIsTerminal(sys, run, last);
    if P.Terminal(last) && !sinkMayFail {
      P.EndedRun(sys, run);
    }
  }

  /** The caller's side, driven by the calls of a session, submits the orders of its items. */
  method SubmitSession(s: Session) returns (orders: seq<Order>)
    requires Writable(s) && !s.flushOnWrite
    ensures orders == AllOrders(s.config.blockSize, Items(s.calls, s.config.blockSize, false))
  {
    hide Addressable, Cut, Pieces, Accept, AcceptNow, Flushed, WithUser, After, ValidCodec, AllOrders, MtWriter.Steady;
    var writer := new MtWriter(s.config, s.codec);
    NoCallsYet(s.config.blockSize, false);
    var i := 0;
    while i < |s.calls|
      invariant i <= |s.calls| && writer.Valid() && fresh(writer)
      invariant writer.config == s.config && writer.codec == s.codec
      invariant writer.State() == After(s.calls[..i], s.config.blockSize, false)
    {
      CallFits(s, i);
      match s.calls[i] {
        case Write(p) =>
          var n := writer.Write(p);
        case Flush => writer.Flush();
        case UserChunk(id, body) =>
          var r := writer.AddUserChunk(id, body);
      }
      i := i + 1;
    }
    assert s.calls[..i] == s.calls;
    orders := writer.Finish();
  }

  /** The multi-threaded writer's sink after a completed run holds byte for byte what the
      single-threaded writer's sink holds after the same calls. */
  method SinkAfter(s: Session, workers: nat, generateIndex: bool, sinkMayFail: bool, received: seq<Received>,
                   ghost run: seq<P.State<Received>>)
    returns (sink: seq<byte>)
    requires Writable(s) && !s.flushOnWrite && workers >= 1 && (s.config.appendIndex ==> generateIndex)
    requires var orders := AllOrders(s.config.blockSize, Items(s.calls, s.config.blockSize, false));
             P.Run(System(workers, s.codec, orders, sinkMayFail), run)
    requires P.Succeeded(run[|run| - 1]) && received == run[|run| - 1].written
    ensures sink == Sink(s)
  {
    hide AllReceived, P.Run, AllOrders, FinishedBytes, ValidCodec, Addressable, Items;
    ghost var items := Items(s.calls, s.config.blockSize, false);
    SessionContent(s.calls, s.config.blockSize, false);
    MtMatchesSt(workers, s.config.blockSize, s.codec, items, sinkMayFail, run);
    sink := WriterLoop(received, s.config, generateIndex, s.codec, items);
  }
}
