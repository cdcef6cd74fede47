/** The random-access reader: it moves a stream reader to uncompressed offsets with the help of the
    seek index. */
module StreamSeek {
  import opened Bytes
  import opened StreamFormat
  import opened StreamSpec
  import opened StreamRoundTrip
  import opened Chunking
  import opened IndexTable
  import IndexWire
  import Index
  import opened StreamReader

  datatype SeekFrom = FromStart(offset: nat) | FromCurrent(delta: int) | FromEnd(delta: int)

  datatype SeekError = InvalidInput | UnknownTotal | PastEnd | InReader(error: StreamFormat.Error)

  /** The outcome of a seek from offset `current` in a content of `total` bytes: the sum must be a
      non-negative `i64` and no larger than the total. */
  function Sought(where: SeekFrom, current: nat, total: nat): Result<nat, SeekError> {
    match where
    case FromStart(x) => Landed(0, x, total)
    case FromCurrent(d) => Landed(current, d, total)
    case FromEnd(d) => Landed(total, d, total)
  }

  function Landed(base: nat, delta: int, total: nat): Result<nat, SeekError> {
    if base > I64_MAX || base + delta < 0 || base + delta > I64_MAX then Err(InvalidInput)
    else if base + delta > total then Err(PastEnd)
    else Ok(base + delta)
  }

  // -------- what the seeker relies on --------

  /** `e` pairs a position in `data` from which a reader in the middle of the stream decodes the rest
      of `p` with the offset of that rest. */
  ghost predicate Boundary(o: Options, p: seq<byte>, room: nat, data: seq<byte>, e: OffsetPair) {
    && e.compressed <= |data| && e.uncompressed <= |p|
    && forall st: State :: st.headerRead && st.consumed == e.uncompressed && room <= st.maxBlock <= MAX_BLOCK_SIZE ==>
                      Placed(p, room, e.uncompressed, [], Drain(o, st, data[e.compressed..]))
  }

  /** `data` is a stream with content `p`, whatever state it is opened in. */
  ghost predicate Opens(o: Options, p: seq<byte>, room: nat, data: seq<byte>) {
    && data != [] && data[0] == CHUNK_TYPE_STREAM_IDENTIFIER
    && forall st: State :: st.consumed == 0 && room <= st.maxBlock <= MAX_BLOCK_SIZE ==> Placed(p, room, 0, [], Drain(o, st, data))
  }

  ghost predicate Boundaries(o: Options, p: seq<byte>, room: nat, data: seq<byte>, es: seq<OffsetPair>) {
    && Sorted(es) && (p == [] ==> es == [])
    && forall e <- es :: Boundary(o, p, room, data, e)
  }

  // -------- finished streams have all of it --------

  /** A recorded block start is where the items from some point on are written. */
  lemma {:induction false} CallAt(blockSize: nat, codec: Codec, items: seq<Item>, e: OffsetPair) returns (k: nat)
    requires MIN_BLOCK_SIZE <= blockSize <= MAX_BLOCK_SIZE && e in Calls(blockSize, codec, items)
    ensures k < |items| && items[k].Data?
    ensures e == OffsetPair(|HeaderBytes(blockSize)| + |ItemsBytes(codec, items[..k])|, |Content(items[..k])|)
    decreases |items|
  {
    hide HeaderBytes, ItemsBytes, Content;
    var front := items[..|items| - 1];
    if e in Calls(blockSize, codec, front) {
      k := CallAt(blockSize, codec, front, e);
      assert front[..k] == items[..k];
    } else {
      k := |items| - 1;
    }
  }

  /** Decoding from an item on: the rest of the content, then the trailer. */
  lemma DrainFrom(o: Options, st: State, c: Config, codec: Codec, items: seq<Item>, k: nat)
    requires Readable(o, c, codec, items) && k <= |items|
    requires st.headerRead && st.consumed == |Content(items[..k])| && st.maxBlock >= c.blockSize
    ensures var rest := ItemsBytes(codec, items[k..]) + (EofBytes(|Content(items)|) + Trailer(c, codec, items));
            var d := Drain(o, st, rest);
            && Content(items) == Content(items[..k]) + Content(items[k..])
            && d.bytes == Content(items[k..]) && d.error == None && d.seamless && d.room == st.maxBlock
  {
    hide Drain, Chunk, ItemsBytes, Content, EofBytes, Trailer, ValidCodec, Addressable, Negotiated;
    var tail, total := items[k..], |Content(items)|;
    assert items == items[..k] + tail;
    ContentConcat(items[..k], tail);
    TailValid(o, items, k, c.blockSize);
    var trailer := Trailer(c, codec, items);
    DrainItems(o, st, c.blockSize, codec, tail, EofBytes(total) + trailer);
    var st1 := st.(consumed := total);
    ContentSmall(codec, items);
    ReadEof(o, st1, trailer);
    DrainStep(o, st1, EofBytes(total) + trailer);
    var st2 := st1.(expectEof := false, headerRead := false);
    DrainTrailer(o, st2, c, codec, items);
    PrependTwice([], [], Drain(o, st2, trailer));
    assert Content(tail) + [] == Content(tail);
  }

  lemma TailValid(o: Options, items: seq<Item>, k: nat, blockSize: nat)
    requires k <= |items| && ValidItems(items, blockSize) && Accepts(o, items)
    ensures ValidItems(items[k..], blockSize) && Accepts(o, items[k..])
  {
  }

  /** What follows the EOF chunk. */
  function Trailer(c: Config, codec: Codec, items: seq<Item>): seq<byte>
    requires ValidConfig(c)
  {
    var data, index := DataBytes(c.blockSize, codec, items), AppendedIndex(c, codec, items);
    PaddingBytes(|data| + |index|, c.padding) + index
  }

  lemma DrainTrailer(o: Options, st: State, c: Config, codec: Codec, items: seq<Item>)
    requires Readable(o, c, codec, items) && !st.expectEof
    ensures Drain(o, st, Trailer(c, codec, items)) == Drained([], None, true, st.maxBlock)
  {
    hide Drain, DataBytes, AppendedIndex, PaddingBytes, Readable;
    ReadableParts(o, c, codec, items);
    var data, index := DataBytes(c.blockSize, codec, items), AppendedIndex(c, codec, items);
    CleanEnd(o, st);
    assert Trailer(c, codec, items) == PaddingBytes(|data| + |index|, c.padding) + (index + []);
    DrainPadding(o, st, |data| + |index|, c.padding, index + []);
    DrainIndex(o, st, c, codec, items, []);
  }

  lemma ReadableParts(o: Options, c: Config, codec: Codec, items: seq<Item>)
    requires Readable(o, c, codec, items)
    ensures ValidConfig(c) && ValidItems(items, c.blockSize) && ValidCodec(codec) && Addressable(codec, items)
  {
  }

  lemma FinishedParts(c: Config, codec: Codec, items: seq<Item>, k: nat)
    requires ValidConfig(c) && k <= |items|
    ensures var at := |HeaderBytes(c.blockSize)| + |ItemsBytes(codec, items[..k])|;
            var data := FinishedBytes(c, codec, items);
            && at <= |data|
            && data[at..] == ItemsBytes(codec, items[k..]) + (EofBytes(|Content(items)|) + Trailer(c, codec, items))
  {
    hide HeaderBytes, ItemsBytes, EofBytes, PaddingBytes, AppendedIndex, Content;
    assert items == items[..k] + items[k..];
    ItemsConcat(codec, items[..k], items[k..]);
    var before := HeaderBytes(c.blockSize) + ItemsBytes(codec, items[..k]);
    var after := ItemsBytes(codec, items[k..]) + (EofBytes(|Content(items)|) + Trailer(c, codec, items));
    assert FinishedBytes(c, codec, items) == before + after;
  }

  /** Every block start of a finished stream is a boundary, and the stream opens at its start. */
  lemma FinishedSeekable(o: Options, c: Config, codec: Codec, items: seq<Item>)
    requires Readable(o, c, codec, items)
    ensures Opens(o, Content(items), c.blockSize, FinishedBytes(c, codec, items))
    ensures Boundaries(o, Content(items), c.blockSize, FinishedBytes(c, codec, items), FinalTable(c.blockSize, codec, items).entries)
  {
    hide Drain, ValidCodec, Addressable, FinishedBytes, Calls, FinalTable, Placed, Content, Negotiated;
    var p, data := Content(items), FinishedBytes(c, codec, items);
    forall st: State | st.consumed == 0 && st.maxBlock >= c.blockSize
      ensures Placed(p, c.blockSize, 0, [], Drain(o, st, data))
    {
      OpenedPlaced(o, st, c, codec, items);
    }
    FinishedStart(c, codec, items);
    FinalTableFacts(c.blockSize, codec, items);
    var es := FinalTable(c.blockSize, codec, items).entries;
    forall e | e in es ensures Boundary(o, p, c.blockSize, data, e) {
      BoundaryAt(o, c, codec, items, e);
    }
    AscendingSorted(es);
    if p == [] && es != [] {
      var k := CallAt(c.blockSize, codec, items, es[0]);
      BlockHasContent(c.blockSize, items, k);
    }
  }

  lemma BlockHasContent(blockSize: nat, items: seq<Item>, k: nat)
    requires k < |items| && ValidItems(items, blockSize) && items[k].Data?
    ensures Content(items) != []
  {
    assert items[k] in items;
    assert items == items[..k + 1] + items[k + 1..];
    ContentConcat(items[..k + 1], items[k + 1..]);
    assert items[..k + 1][..k] == items[..k];
  }

  lemma AscendingSorted(es: seq<OffsetPair>)
    requires IndexWire.UAscending(es, 0) && IndexWire.CAscending(es, 0)
    ensures Sorted(es)
  {
    forall i, j | 0 <= i <= j < |es|
      ensures es[i].uncompressed <= es[j].uncompressed && es[i].compressed <= es[j].compressed
    {
      AscendingPair(es, i, j);
    }
  }

  lemma {:induction false} AscendingPair(es: seq<OffsetPair>, i: nat, j: nat)
    requires IndexWire.UAscending(es, 0) && IndexWire.CAscending(es, 0) && i <= j < |es|
    ensures es[i].uncompressed <= es[j].uncompressed && es[i].compressed <= es[j].compressed
    decreases j
  {
    if i < j {
      AscendingPair(es, i, j - 1);
    }
  }

  lemma FinishedStart(c: Config, codec: Codec, items: seq<Item>)
    requires ValidConfig(c)
    ensures var data := FinishedBytes(c, codec, items); data != [] && data[0] == CHUNK_TYPE_STREAM_IDENTIFIER
  {
    hide ItemsBytes, EofBytes, PaddingBytes, AppendedIndex, BlockSizeIndicator;
    var data, h := FinishedBytes(c, codec, items), HeaderBytes(c.blockSize);
    assert data[..|h|] == h;
    assert h[0] == CHUNK_TYPE_STREAM_IDENTIFIER;
  }

  lemma OpenedPlaced(o: Options, st: State, c: Config, codec: Codec, items: seq<Item>)
    requires Readable(o, c, codec, items) && st.consumed == 0 && st.maxBlock >= c.blockSize
    ensures Placed(Content(items), c.blockSize, 0, [], Drain(o, st, FinishedBytes(c, codec, items)))
  {
    var after := AfterEof(c.blockSize, items);
    CleanEnd(o, after);
    hide Drain, FinishedBytes, Content, ValidCodec, Addressable, Negotiated;
    DrainFinished(o, st, c, codec, items, []);
    NegotiatedHolds(c.blockSize);
    assert FinishedBytes(c, codec, items) + [] == FinishedBytes(c, codec, items);
    assert Content(items) + [] == Content(items)[0..];
  }

  lemma BoundaryAt(o: Options, c: Config, codec: Codec, items: seq<Item>, e: OffsetPair)
    requires Readable(o, c, codec, items) && e in Calls(c.blockSize, codec, items)
    ensures Boundary(o, Content(items), c.blockSize, FinishedBytes(c, codec, items), e)
  {
    hide Drain, ValidCodec, Addressable, FinishedBytes, Calls, Content, ItemsBytes, EofBytes, Trailer, HeaderBytes, Negotiated;
    var k := CallAt(c.blockSize, codec, items, e);
    FinishedParts(c, codec, items, k);
    assert items == items[..k] + items[k..];
    ContentConcat(items[..k], items[k..]);
    var p := Content(items);
    assert p[|Content(items[..k])|..] == Content(items[k..]);
    forall st: State | st.headerRead && st.consumed == e.uncompressed && st.maxBlock >= c.blockSize
      ensures Placed(p, c.blockSize, e.uncompressed, [], Drain(o, st, FinishedBytes(c, codec, items)[e.compressed..]))
    {
      DrainFrom(o, st, c, codec, items, k);
    }
  }

  // -------- the seeker --------

  class ReadSeeker {
    const reader: Reader
    const index: Index.Index

    constructor (reader: Reader, index: Index.Index)
      ensures this.reader == reader && this.index == index
    {
      this.reader, this.index := reader, index;
    }

    /** The reader is in a stream with content `p`, its source opens with that stream, and the index
        records true positions in it. */
    ghost predicate Ready(p: seq<byte>, room: nat)
      reads this, reader, index
    {
      && reader.Tracks(p, room)
      && Opens(reader.o, p, room, reader.data)
      && Boundaries(reader.o, p, room, reader.data, index.offsets)
      && index.totalUncompressed == Some(|p|)
    }

    /** The reader is where it was. */
    twostate predicate Unmoved()
      reads reader
    {
      && reader.pos == old(reader.pos) && reader.Frontier() == old(reader.Frontier())
      && reader.decoded == old(reader.decoded) && reader.decodedPos == old(reader.decodedPos)
      && reader.blockStart == old(reader.blockStart)
    }

    /** The absolute offset a seek asks for. */
    method Target(where: SeekFrom) returns (r: Result<int, SeekError>)
      ensures match where
              case FromStart(x) => r == if x <= I64_MAX then Ok(x) else Err(InvalidInput)
              case FromCurrent(d) =>
                var at := reader.CurrentOffset() + d;
                r == if reader.CurrentOffset() <= I64_MAX && IndexWire.I64(at) then Ok(at) else Err(InvalidInput)
              case FromEnd(d) =>
                if index.totalUncompressed.None? then r == Err(UnknownTotal)
                else
                  var at := index.totalUncompressed.value + d;
                  r == if index.totalUncompressed.value <= I64_MAX && IndexWire.I64(at) then Ok(at) else Err(InvalidInput)
    {
      match where
      case FromStart(x) => return if x <= I64_MAX then Ok(x) else Err(InvalidInput);
      case FromCurrent(d) =>
        var at := reader.CurrentOffset();
        return if at <= I64_MAX && IndexWire.I64(at + d) then Ok(at + d) else Err(InvalidInput);
      case FromEnd(d) =>
        if index.totalUncompressed.None? {
          return Err(UnknownTotal);
        }
        var total := index.totalUncompressed.value;
        return if total <= I64_MAX && IndexWire.I64(total + d) then Ok(total + d) else Err(InvalidInput);
    }

    /** Moves to an uncompressed offset: within the decoded block if it is there, otherwise to the
        index entry before it and from there by skipping.  In a stream with content `p` this succeeds
        for every offset up to the end, and reading then goes on from that offset; any other seek is
        refused and moves nothing.  So is every seek after an error other than the end of the input. */
    method SeekUncompressed(where: SeekFrom) returns (r: Result<nat, SeekError>)
      requires reader.Valid() && Sorted(index.offsets)
      modifies reader
      ensures reader.Valid() && reader.data == old(reader.data)
      ensures forall p, room :: old(Ready(p, room)) ==>
                && Ready(p, room) && r == Sought(where, old(reader.CurrentOffset()), |p|)
                && (r.Ok? ==> reader.CurrentOffset() == r.value <= |p|)
                && (r.Err? ==> Unmoved())
      ensures old(reader.err).Some? && old(reader.err) != Some(UnexpectedEof) ==>
                r == Err(InReader(old(reader.err).value)) && Unmoved() && reader.err == old(reader.err)
      ensures old(reader.err).None? && index.totalUncompressed.None? && where.FromEnd? ==> r == Err(UnknownTotal) && Unmoved()
    {
      hide Drain, Placed, Opens, Boundaries;
      if reader.err.Some? {
        if reader.err.value != UnexpectedEof {
          return Err(InReader(reader.err.value));
        }
        reader.err := None;
      }
      forall p, room | old(Ready(p, room)) ensures reader.CurrentOffset() <= |p| {
        TrackedRoom(p, room, reader.blockStart, reader.decoded, reader.o, reader.Frontier(), reader.data[reader.pos..]);
      }
      var target := Target(where);
      if target.Err? {
        return Err(target.error);
      }
      if target.value < 0 {
        return Err(InvalidInput);
      }
      if index.totalUncompressed.Some? && target.value > index.totalUncompressed.value {
        return Err(PastEnd);
      }
      assert forall p, room :: old(Ready(p, room)) ==> Ready(p, room) && target.value <= |p|;
      r := MoveTo(target.value);
    }

    /** Makes sure the stream identifier has been read, going back to it after the end. */
    method Reopen() returns (r: Result<(), SeekError>)
      requires reader.Valid() && reader.err.None?
      modifies reader
      ensures reader.Valid() && reader.data == old(reader.data) && (r.Ok? ==> reader.err.None?)
      ensures forall p, room :: old(Ready(p, room)) ==> Ready(p, room) && r.Ok? && (p != [] ==> reader.headerRead)
    {
      hide Drain, Placed, Boundaries;
      if !reader.headerRead {
        reader.pos := 0;
        forall p, room | old(Ready(p, room)) ensures reader.Opening(p, room) {
          TrackedRoom(p, room, reader.blockStart, reader.decoded, reader.o, reader.Frontier(), old(reader.data[reader.pos..]));
          OpensAt(reader.o, p, room, reader.data, reader.Frontier().(consumed := 0));
        }
        var filled := reader.FillBuf();
        if filled.Err? {
          return Err(InReader(filled.error));
        }
      }
      return Ok(());
    }

    /** Moves to the index entry before `at` and skips from there. */
    method Jump(at: nat) returns (r: Result<(), SeekError>)
      requires reader.Valid() && reader.err.None? && Sorted(index.offsets)
      modifies reader
      ensures reader.Valid() && reader.data == old(reader.data)
      ensures forall p, room :: old(Ready(p, room)) && (p != [] ==> old(reader.headerRead)) && at <= |p| ==>
                Ready(p, room) && r.Ok? && reader.CurrentOffset() == at
    {
      hide Drain, Placed, Opens, Boundaries;
      forall p, room | old(Ready(p, room)) ensures reader.maxBlock >= room {
        TrackedRoom(p, room, reader.blockStart, reader.decoded, reader.o, reader.Frontier(), reader.data[reader.pos..]);
      }
      var entry := index.Find(at);
      FoundBefore(index.offsets, at);
      // A position past the end of the source reads as its end.
      reader.pos := if entry.compressed <= |reader.data| then entry.compressed else |reader.data|;
      reader.decoded, reader.decodedPos, reader.blockStart := [], 0, entry.uncompressed;
      forall p, room | old(Ready(p, room)) && (p != [] ==> old(reader.headerRead)) ensures reader.Tracks(p, room) {
        EntryPlaced(reader.o, p, room, reader.data, index.offsets, at, reader.Frontier());
      }
      if entry.uncompressed < at {
        var skipped := reader.Skip(at - entry.uncompressed);
        if skipped.Err? {
          return Err(InReader(skipped.error));
        }
      }
      return Ok(());
    }

    /** Moves to offset `at`. */
    method MoveTo(at: nat) returns (r: Result<nat, SeekError>)
      requires reader.Valid() && reader.err.None? && Sorted(index.offsets)
      modifies reader
      ensures reader.Valid() && reader.data == old(reader.data)
      ensures forall p, room :: old(Ready(p, room)) && at <= |p| ==>
                Ready(p, room) && r == Ok(at) && reader.CurrentOffset() == at
    {
      hide Drain, Placed, Opens, Boundaries;
      var reopened := Reopen();
      if reopened.Err? {
        return Err(reopened.error);
      }
      var blockStart := reader.blockStart;
      var blockEnd := blockStart + |reader.decoded|;
      if blockStart <= at < blockEnd {
        forall p, room | old(Ready(p, room)) ensures p != [] {
          TrackedRoom(p, room, reader.blockStart, reader.decoded, reader.o, reader.Frontier(), reader.data[reader.pos..]);
        }
        reader.decodedPos := at - blockStart;
        return Ok(at);
      }
      var jumped := Jump(at);
      return if jumped.Err? then Err(jumped.error) else Ok(at);
    }

    /** A read of the inner reader: bytes of the content from the current offset on, none only at
        its end. */
    method Read(n: nat) returns (r: Result<seq<byte>, StreamFormat.Error>)
      requires reader.Valid()
      modifies reader
      ensures reader.Valid() && reader.data == old(reader.data) && (r.Ok? ==> |r.value| <= n)
      ensures forall p, room :: old(Ready(p, room)) ==>
                && r.Ok? && Ready(p, room)
                && old(reader.CurrentOffset()) + |r.value| == reader.CurrentOffset() <= |p|
                && r.value == p[old(reader.CurrentOffset())..reader.CurrentOffset()]
                && (r.value == [] && n > 0 ==> reader.CurrentOffset() == |p|)
    {
      hide Drain, Placed, Opens, Boundaries;
      forall p, room | old(Ready(p, room))
        ensures reader.CurrentOffset() <= |p| && reader.Remaining().bytes == p[reader.CurrentOffset()..]
      {
        PlacedClean(p, room, reader.blockStart, reader.decoded, reader.Ahead());
      }
      r := reader.Read(n);
      forall p, room | old(Ready(p, room)) ensures reader.CurrentOffset() <= |p| {
        TrackedRoom(p, room, reader.blockStart, reader.decoded, reader.o, reader.Frontier(), reader.data[reader.pos..]);
      }
    }

    /** Reads until `n` bytes have come or the content ends. */
    method ReadFully(n: nat) returns (r: Result<seq<byte>, StreamFormat.Error>)
      requires reader.Valid()
      modifies reader
      ensures reader.Valid() && reader.data == old(reader.data)
      ensures forall p, room :: old(Ready(p, room)) && old(reader.CurrentOffset()) <= |p| ==>
                && Ready(p, room) && r == Ok(Upto(p, old(reader.CurrentOffset()), n))
                && reader.CurrentOffset() == old(reader.CurrentOffset()) + |r.value|
    {
      hide Ready;
      ghost var from := reader.CurrentOffset();
      var out := [];
      while |out| < n
        invariant reader.Valid() && reader.data == old(reader.data) && |out| <= n
        invariant forall p, room :: old(Ready(p, room)) && from <= |p| ==>
                    && Ready(p, room) && from + |out| == reader.CurrentOffset() <= |p| && out == p[from..from + |out|]
        decreases n - |out|
      {
        var b := Read(n - |out|);
        if b.Err? {
          return Err(b.error);
        }
        forall p, room | old(Ready(p, room)) && from <= |p| ensures out + b.value == p[from..from + |out| + |b.value|] {
          assert p[from..from + |out|] + p[from + |out|..from + |out| + |b.value|] == p[from..from + |out| + |b.value|];
        }
        if b.value == [] {
          return Ok(out);
        }
        out := out + b.value;
      }
      return Ok(out);
    }

    /** Any reads and seeks, then a seek to `offset` and a read to the end. */
    method Wander(history: seq<Op>, offset: nat, ghost p: seq<byte>, ghost room: nat) returns (r: Result<seq<byte>, SeekError>)
      requires Ready(p, room) && Sorted(index.offsets)
      modifies reader
      ensures r == if offset > I64_MAX then Err(InvalidInput) else if offset > |p| then Err(PastEnd) else Ok(p[offset..])
    {
      hide Drain, Placed, Opens, Boundaries, Sorted;
      for i := 0 to |history|
        invariant Ready(p, room) && reader.Valid() && Sorted(index.offsets)
      {
        match history[i] {
          case Seek(where) => var _ := SeekUncompressed(where);
          case Read(n) => var _ := Read(n);
        }
      }
      var sought := SeekUncompressed(FromStart(offset));
      if sought.Err? {
        return Err(sought.error);
      }
      PlacedClean(p, room, reader.blockStart, reader.decoded, reader.Ahead());
      var bytes, error := reader.ReadToEnd(4096);
      return Ok(bytes);
    }

    /** Up to `n` bytes from `offset` on; fewer only at the end of the content. */
    method ReadAt(n: nat, offset: nat) returns (r: Result<seq<byte>, SeekError>)
      requires reader.Valid() && Sorted(index.offsets)
      modifies reader
      ensures reader.Valid() && reader.data == old(reader.data)
      ensures forall p, room :: old(Ready(p, room)) ==>
                && Ready(p, room)
                && r == (if offset > I64_MAX then Err(InvalidInput) else if offset > |p| then Err(PastEnd)
                         else Ok(Upto(p, offset, n)))
                && (if r.Ok? then reader.CurrentOffset() == offset + |r.value| else Unmoved())
    {
      hide Ready, Upto;
      var sought := SeekUncompressed(FromStart(offset));
      if sought.Err? {
        return Err(sought.error);
      }
      var out := ReadFully(n);
      return if out.Err? then Err(InReader(out.error)) else Ok(out.value);
    }
  }

  /** The up to `n` bytes of `p` from `offset` on. */
  function Upto(p: seq<byte>, offset: nat, n: nat): seq<byte>
    requires offset <= |p|
  {
    p[offset..if offset + n <= |p| then offset + n else |p|]
  }

  lemma OpensAt(o: Options, p: seq<byte>, room: nat, data: seq<byte>, st: State)
    requires Opens(o, p, room, data) && st.consumed == 0 && room <= st.maxBlock <= MAX_BLOCK_SIZE
    ensures Placed(p, room, 0, [], Drain(o, st, data[0..]))
    ensures data != [] && data[0] == CHUNK_TYPE_STREAM_IDENTIFIER
  {
    hide Drain, Placed;
    assert data[0..] == data;
  }

  lemma TrackedRoom(p: seq<byte>, room: nat, start: nat, block: seq<byte>, o: Options, st: State, s: seq<byte>)
    requires Placed(p, room, start, block, Drain(o, st, s))
    ensures st.maxBlock >= room && start + |block| <= |p|
  {
    hide Drain;
  }

  lemma FoundBefore(es: seq<OffsetPair>, at: nat)
    ensures Find(es, at).uncompressed <= at && (Find(es, at) in es || Find(es, at) == ORIGIN)
  {
  }

  /** From the entry found for an offset, the reader decodes the rest of the content. */
  lemma EntryPlaced(o: Options, p: seq<byte>, room: nat, data: seq<byte>, es: seq<OffsetPair>, at: nat, st: State)
    requires Opens(o, p, room, data) && Boundaries(o, p, room, data, es)
    requires st.consumed == Find(es, at).uncompressed && room <= st.maxBlock <= MAX_BLOCK_SIZE && (p != [] ==> st.headerRead)
    ensures var e := Find(es, at);
            e.compressed <= |data| && Placed(p, room, e.uncompressed, [], Drain(o, st, data[e.compressed..]))
  {
    hide Drain, Placed;
    FoundBefore(es, at);
    var e := Find(es, at);
    if e in es {
      assert Boundary(o, p, room, data, e);
    } else {
      OpensAt(o, p, room, data, st);
    }
  }

  // -------- opening a stream for random access --------

  /** Whether the bytes look like a framed index chunk rather than its bare payload. */
  predicate LooksLikeFullChunk(b: seq<byte>) {
    && |b| >= 4 + |IndexWire.INDEX_HEADER|
    && (b[0] == IndexWire.CHUNK_TYPE_INDEX || b[0] == IndexWire.LEGACY_INDEX_CHUNK)
    && b[4..4 + |IndexWire.INDEX_HEADER|] == IndexWire.INDEX_HEADER
  }

  /** The chunk that the given bytes stand for: themselves, themselves wrapped, or the end of the
      source. */
  function IndexChunk(data: seq<byte>, indexBytes: seq<byte>): Result<seq<byte>, IndexTable.Error> {
    if indexBytes == [] then
      var start := IndexWire.TailStart(data);
      if start.Err? then Err(start.error) else Ok(data[start.value..])
    else if LooksLikeFullChunk(indexBytes) then Ok(indexBytes)
    else Ok(IndexWire.RestoreIndexHeaders(indexBytes))
  }

  /** Loads the index a seeker was given, or the one at the end of its source. */
  method LoadIndex(data: seq<byte>, indexBytes: seq<byte>) returns (r: Result<(), IndexTable.Error>, index: Index.Index)
    ensures fresh(index)
    ensures var chunk := IndexChunk(data, indexBytes);
            if chunk.Err? then r == Err(chunk.error)
            else
              var p := IndexWire.Parse(chunk.value);
              if p.Err? then r == Err(p.error)
              else
                var l := p.value.0;
                r == Ok(()) && index.Contents() == l.table && Sorted(index.offsets) && index.totalUncompressed == Some(l.totalU)
  {
    hide IndexWire.Parse, IndexWire.TailStart, IndexWire.RestoreIndexHeaders, Sorted;
    index := new Index.Index();
    if indexBytes == [] {
      r := index.LoadStream(data);
      return;
    }
    var rest: Result<seq<byte>, IndexTable.Error>;
    if LooksLikeFullChunk(indexBytes) {
      rest := index.Load(indexBytes);
    } else {
      rest := index.Load(IndexWire.RestoreIndexHeaders(indexBytes));
    }
    r := if rest.Err? then Err(rest.error) else Ok(());
  }

  /** A bare payload with a spacing that a writer uses is never taken for a framed chunk: the header
      would need six low bytes in a row where the totals have two and the spacing has none. */
  lemma BareLooksBare(t: Table, totalU: Option<nat>, totalC: Option<nat>)
    requires t.est >= MIN_INDEX_DIST
    ensures !LooksLikeFullChunk(IndexWire.Payload(t, totalU, totalC))
  {
    hide Uvarint, IndexWire.Offsets;
    var u, c, e := IndexWire.Varint(IndexWire.OptToWire(totalU)), IndexWire.Varint(IndexWire.OptToWire(totalC)), IndexWire.Varint(t.est);
    UvarintShape(IndexWire.Zigzag(IndexWire.OptToWire(totalU)));
    UvarintShape(IndexWire.Zigzag(IndexWire.OptToWire(totalC)));
    UvarintShape(IndexWire.Zigzag(t.est));
    var b, rest := IndexWire.Payload(t, totalU, totalC), IndexWire.Varint(|t.entries|) + IndexWire.Offsets(t);
    assert b == u + c + e + rest;
    HighByte(u, c, e, rest);
    if |b| >= 10 {
      var i :| 4 <= i < 10 && b[i] >= 0x80;
      assert b[4..10][i - 4] == b[i];
      assert IndexWire.INDEX_HEADER[i - 4] < 0x80;
    }
  }

  /** Only the last byte of a varint is low. */
  predicate VarintShaped(b: seq<byte>) { b != [] && forall i :: 0 <= i < |b| - 1 ==> b[i] >= 0x80 }

  lemma HighByte(u: seq<byte>, c: seq<byte>, e: seq<byte>, rest: seq<byte>)
    requires VarintShaped(u) && VarintShaped(c) && VarintShaped(e) && |e| >= 4
    ensures var b := u + c + e + rest; |b| >= 10 ==> exists i :: 4 <= i < 10 && b[i] >= 0x80
  {
    var b, p := u + c + e + rest, |u| + |c|;
    if |b| >= 10 {
      if p < 10 {
        var i := if p <= 7 then 2 else 9 - p;
        assert b[p + i] == e[i];
      } else if |u| >= 6 {
        assert b[4] == u[4];
      } else if |u| == 5 {
        assert b[5] == c[0];
      } else {
        assert b[4] == c[4 - |u|];
      }
    }
  }

  /** The ways to hand over a writer's index: its chunk, its bare payload, or nothing when it is at
      the end of the stream. */
  ghost predicate GivesIndex(c: Config, codec: Codec, items: seq<Item>, indexBytes: seq<byte>)
    requires ValidConfig(c)
  {
    || indexBytes == IndexBytes(c, codec, items)
    || indexBytes == IndexPayload(c, codec, items)
    || (indexBytes == [] && c.appendIndex)
  }

  /** All of them lead to the writer's table. */
  lemma WriterIndexFound(c: Config, codec: Codec, items: seq<Item>, indexBytes: seq<byte>)
    requires ValidConfig(c) && ValidItems(items, c.blockSize) && ValidCodec(codec) && Addressable(codec, items)
    requires GivesIndex(c, codec, items, indexBytes)
    ensures var chunk := IndexChunk(FinishedBytes(c, codec, items), indexBytes);
            && chunk.Ok? && IndexWire.Parse(chunk.value).Ok?
            && IndexWire.Parse(chunk.value).value.0.totalU == |Content(items)|
            && IndexWire.Parse(chunk.value).value.0.table == FinalTable(c.blockSize, codec, items)
  {
    hide IndexWire.Parse, FinalTable, DataBytes, Content, PaddingBytes, ValidCodec, Addressable, IndexBytes,
         IndexWire.Envelope, IndexWire.TailStart, LooksLikeFullChunk, IndexPayload;
    var index := IndexBytes(c, codec, items);
    WriterIndexLoads(c, codec, items, []);
    assert index + [] == index;
    var payload := IndexPayload(c, codec, items);
    IndexIsEnvelope(c, codec, items);
    FramedLooksFull(payload);
    PayloadLooksBare(c, codec, items);
    if indexBytes == [] {
      var data := DataBytes(c.blockSize, codec, items);
      IndexWire.TailFindsIndex(data + PaddingBytes(|data| + |index|, c.padding), payload);
    }
  }

  lemma PayloadLooksBare(c: Config, codec: Codec, items: seq<Item>)
    requires ValidConfig(c) && ValidItems(items, c.blockSize) && ValidCodec(codec) && Addressable(codec, items)
    ensures !LooksLikeFullChunk(IndexPayload(c, codec, items))
  {
    hide FinalTable, DataBytes, Content, ValidCodec, Addressable, LooksLikeFullChunk, IndexWire.Payload;
    FinalTableFacts(c.blockSize, codec, items);
    BareLooksBare(FinalTable(c.blockSize, codec, items), Some(|Content(items)|),
                  CompressedTotal(c.padding, |DataBytes(c.blockSize, codec, items)|));
  }

  lemma FramedLooksFull(payload: seq<byte>)
    ensures LooksLikeFullChunk(IndexWire.Envelope(payload)) && IndexWire.Envelope(payload) != []
  {
    hide IndexWire.Envelope;
    assert IndexWire.Envelope(payload)[0..|IndexWire.Envelope(payload)|] == IndexWire.Envelope(payload);
    IndexWire.EnvelopeHeld(IndexWire.Envelope(payload), payload);
  }

  datatype Op = Seek(where: SeekFrom) | Read(n: nat)

  /** Random access to a written stream: after any reads and seeks whatsoever, seeking to an offset
      and reading to the end yields the content from that offset on. */
  method SeekAndRead(o: Options, data: seq<byte>, indexBytes: seq<byte>, history: seq<Op>, offset: nat,
                     ghost c: Config, ghost codec: Codec, ghost items: seq<Item>)
    returns (r: Result<seq<byte>, SeekError>)
    requires ValidOptions(o) && Readable(o, c, codec, items) && data == FinishedBytes(c, codec, items)
    requires GivesIndex(c, codec, items, indexBytes)
    ensures r == if offset > I64_MAX then Err(InvalidInput) else if offset > |Content(items)| then Err(PastEnd) else Ok(Content(items)[offset..])
  {
    hide Drain, Placed, Opens, Boundaries, FinishedBytes, IndexChunk, IndexWire.Parse, FinalTable, ValidCodec, Addressable,
         Content, Negotiated, Sorted, GivesIndex;
    ghost var p, room := Content(items), c.blockSize;
    var reader := new Reader(o, data);
    var loaded, index := LoadIndex(data, indexBytes);
    WriterIndexFound(c, codec, items, indexBytes);
    var seeker := new ReadSeeker(reader, index);
    FinishedSeekable(o, c, codec, items);
    NegotiatedHolds(c.blockSize);
    OpensAt(o, p, room, data, reader.Frontier());
    r := seeker.Wander(history, offset, p, room);
  }
}
