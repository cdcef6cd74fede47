/** What an index built by `index_stream` is good for: on every input that a reader decodes, whoever
    wrote it, its entries are data chunks from which a reader decodes the rest, the first data chunk is
    among them, and one of them lies shortly before every offset. */
module IndexSeek {
  import opened Bytes
  import opened StreamFormat
  import opened IndexTable
  import opened IndexStream
  import opened IndexReach
  import opened StreamReader
  import opened StreamSeek
  import Block
  import Crc
  import IndexWire
  import Index

  // -------- the data chunks of an input --------

  /** The most bytes a chunk of the input decodes to. */
  function LargestBlock(o: Options, st: State, s: seq<byte>): nat
    decreases |s|
  {
    var c := Chunk(o, st, s);
    if !c.Next? then 0 else Max(|c.payload|, LargestBlock(o, c.state, s[c.length..]))
  }

  /** Starts laid out from position `at` and offset `offset` on, up to offset `end`, each at most
      `largest` bytes after the one before it. */
  predicate Laid(starts: seq<OffsetPair>, at: nat, offset: nat, largest: nat, limit: nat, end: nat) {
    && Ascending(starts)
    && (forall p <- starts :: at <= p.compressed < limit && offset <= p.uncompressed < end)
    && (forall i :: 0 < i < |starts| ==> starts[i].uncompressed - starts[i - 1].uncompressed <= largest)
    && if starts == [] then end == offset else starts[0].uncompressed == offset && 1 <= end - Last(starts).uncompressed <= largest
  }

  lemma LaidNothing(at: nat, offset: nat, limit: nat)
    ensures Laid([], at, offset, 0, limit, offset)
  {
  }

  lemma LaidMore(starts: seq<OffsetPair>, at: nat, at': nat, offset: nat, largest: nat, largest': nat, limit: nat, end: nat)
    requires Laid(starts, at', offset, largest, limit, end) && at <= at' && largest <= largest'
    ensures Laid(starts, at, offset, largest', limit, end)
  {
  }

  lemma LaidFirst(starts: seq<OffsetPair>, at: nat, n: nat, offset: nat, block: nat, largest: nat, limit: nat, end: nat)
    requires Laid(starts, at + n, offset + block, largest, limit, end) && 1 <= block <= largest && n >= 1 && at + n <= limit
    ensures Laid([OffsetPair(at, offset)] + starts, at, offset, largest, limit, end)
  {
    var all := [OffsetPair(at, offset)] + starts;
    assert starts != [] ==> starts[0] in starts && Last(starts) in starts;
    forall i, j | 0 <= i < j < |all| ensures all[i].uncompressed < all[j].uncompressed && all[i].compressed < all[j].compressed {
      assert all[j] == starts[j - 1] && starts[j - 1] in starts;
      assert i > 0 ==> all[i] == starts[i - 1];
    }
    forall i | 0 < i < |all| ensures all[i].uncompressed - all[i - 1].uncompressed <= largest {
      assert all[i] == starts[i - 1];
      assert i > 1 ==> all[i - 1] == starts[i - 2];
    }
  }

  /** One chunk in front of an input whose starts are laid out. */
  lemma LaidChunk(later: seq<OffsetPair>, at: nat, n: nat, offset: nat, block: nat, largest: nat, limit: nat, end: nat)
    requires Laid(later, at + n, offset + block, largest, limit, end) && n >= 1 && at + n <= limit
    ensures Laid((if block > 0 then [OffsetPair(at, offset)] else []) + later, at, offset, Max(block, largest), limit, end)
  {
    hide Laid, Ascending;
    LaidMore(later, at + n, at + n, offset + block, largest, Max(block, largest), limit, end);
    if block == 0 {
      LaidMore(later, at, at + n, offset, largest, largest, limit, end);
      assert [] + later == later;
    } else {
      LaidFirst(later, at, n, offset, block, Max(block, largest), limit, end);
    }
  }

  lemma LargestStep(o: Options, st: State, s: seq<byte>)
    ensures var c := Chunk(o, st, s);
            LargestBlock(o, st, s) == if !c.Next? then 0 else Max(|c.payload|, LargestBlock(o, c.state, s[c.length..]))
  {
    hide Chunk;
  }

  /** The starts of an input are laid out over everything it decodes to. */
  lemma {:induction false} StartsLaid(o: Options, st: State, s: seq<byte>, at: nat, offset: nat)
    ensures Laid(Starts(o, st, s, at, offset), at, offset, LargestBlock(o, st, s), at + |s|, offset + |Drain(o, st, s).bytes|)
    ensures FirstLength(o, st, s) > 0 <==> Starts(o, st, s, at, offset) != []
    decreases |s|
  {
    hide Chunk, Drain, Starts, FirstLength, Laid, LargestBlock, Max;
    StartsStep(o, st, s, at, offset);
    LargestStep(o, st, s);
    var c := Chunk(o, st, s);
    if !c.Next? {
      LaidNothing(at, offset, at + |s|);
    } else {
      var later := Starts(o, c.state, s[c.length..], at + c.length, offset + |c.payload|);
      StartsLaid(o, c.state, s[c.length..], at + c.length, offset + |c.payload|);
      LaidChunk(later, at, c.length, offset, |c.payload|, LargestBlock(o, c.state, s[c.length..]), at + |s|,
                offset + |Drain(o, st, s).bytes|);
    }
  }

  /** No chunk decodes to more than two mebibytes per byte of input. */
  lemma {:induction false} BytesBound(o: Options, st: State, s: seq<byte>)
    requires ValidOptions(o) && st.maxBlock <= StreamFormat.MAX_BLOCK_SIZE
    ensures |Drain(o, st, s).bytes| <= 0x20_0000 * |s|
    decreases |s|
  {
    hide Chunk, Drain, DeclaredLength, Le24;
    StartsStep(o, st, s, 0, 0);
    DeclaredIsDecoded(o, st, s);
    var c := Chunk(o, st, s);
    if c.Next? {
      DeclaredBound(s[0], Body(s, Le24(s, 1)));
      BytesBound(o, c.state, s[c.length..]);
    }
  }

  lemma LaidStarts(starts: seq<OffsetPair>, largest: nat, limit: nat, end: nat)
    requires Laid(starts, 0, 0, largest, limit, end) && limit <= I64_MAX && end <= I64_MAX
    ensures BlockStarts(starts, largest, end) && Ascending(starts)
  {
  }

  // -------- what the table reaches --------

  /** The data chunks of an input. */
  function DataChunks(o: Options, data: seq<byte>): seq<OffsetPair> { Starts(o, Initial(o), data, 0, 0) }

  lemma {:induction false} FirstLengthBound(o: Options, st: State, s: seq<byte>)
    requires ValidOptions(o) && st.maxBlock <= StreamFormat.MAX_BLOCK_SIZE
    ensures FirstLength(o, st, s) <= StreamFormat.MAX_BLOCK_SIZE
    decreases |s|
  {
    hide Chunk, Drain, DeclaredLength, Le24;
    DeclaredIsDecoded(o, st, s);
    var c := Chunk(o, st, s);
    if c.Next? {
      DeclaredBound(s[0], Body(s, Le24(s, 1)));
      FirstLengthBound(o, c.state, s[c.length..]);
    }
  }

  /** The spacing is that of a block, or paid for by the bytes spanned, and never below the first
      block; below the limit on entries it is exactly that. */
  predicate Spacious(t: Table, first: nat, recorded: nat, total: nat) {
    && first <= t.est && |t.entries| <= recorded
    && (t.est <= StreamFormat.MAX_BLOCK_SIZE || t.est * 0x8000 <= total)
    && (recorded <= MAX_INDEX_ENTRIES ==> t.est == first)
  }

  lemma {:induction false} AddAllSpacious(first: nat, starts: seq<OffsetPair>, maxBlock: nat, total: nat)
    requires 1 <= first <= StreamFormat.MAX_BLOCK_SIZE && BlockStarts(starts, maxBlock, total)
    ensures var r := AddAll(Table([], first), starts);
            && r.Ok? && Spacious(r.value, first, |starts|, total) && r.value.est >= 1
            && Growing(r.value, if starts == [] then 0 else Last(starts).compressed, total)
    decreases |starts|
  {
    hide Add, BlockStarts, Growing, Spacious;
    if starts == [] {
      NothingRecorded(first, total);
    } else {
      var front, p := starts[..|starts| - 1], Last(starts);
      EarlierStarts(maxBlock, starts, total);
      EarlierBefore(starts, maxBlock, total);
      AddAllSpacious(first, front, maxBlock, p.uncompressed);
      assert front != [] ==> Last(front) in front;
      var t := AddAll(Table([], first), front).value;
      GrowsWith(t, if front == [] then 0 else Last(front).compressed, p.uncompressed, p.compressed, p.uncompressed);
      AddGrows(t, p);
      AddSpacious(t, p, first, |front|, total);
      GrowsWith(Add(t, p).value, p.compressed, p.uncompressed, p.compressed, total);
    }
  }

  lemma NothingRecorded(first: nat, total: nat)
    requires 1 <= first <= StreamFormat.MAX_BLOCK_SIZE
    ensures Growing(Table([], first), 0, total) && Spacious(Table([], first), first, 0, total)
  {
  }

  lemma AddSpacious(t: Table, p: OffsetPair, first: nat, recorded: nat, total: nat)
    requires Spacious(t, first, recorded, p.uncompressed) && p.uncompressed <= total && Add(t, p).Ok?
    requires Growing(Add(t, p).value, p.compressed, p.uncompressed)
    ensures Spacious(Add(t, p).value, first, recorded + 1, total)
  {
    hide Sorted, GapsAtLeast, Within, Short, Thin;
    ThinShorter(t.entries + [p], t.est * 2);
  }

  lemma {:induction false} ThinShorter(es: seq<OffsetPair>, est: nat)
    ensures |Thin(es, est)| <= |es|
    decreases |es|
  {
    if es != [] {
      ThinShorter(es[1 + Near(es[1..], es[0].uncompressed, est)..], est);
    }
  }

  /** The last entry found for an offset is no further than any other at or before it. */
  lemma FindBest(es: seq<OffsetPair>, q: nat, e: OffsetPair)
    requires Sorted(es) && e in es && e.uncompressed <= q
    ensures Find(es, q) in es && e.uncompressed <= Find(es, q).uncompressed <= q
  {
    var n := CountUpTo(es, q);
    var k :| 0 <= k < |es| && es[k] == e;
    assert k < n;
  }

  /** Every offset lies in the block of some start. */
  lemma StartNear(starts: seq<OffsetPair>, maxBlock: nat, total: nat, q: nat) returns (p: OffsetPair)
    requires BlockStarts(starts, maxBlock, total) && q < total
    ensures p in starts && p.uncompressed <= q < p.uncompressed + maxBlock
  {
    var n := CountUpTo(starts, q);
    p := starts[n - 1];
  }

  lemma FindReaches(es: seq<OffsetPair>, starts: seq<OffsetPair>, d: nat, maxBlock: nat, total: nat, q: nat)
    requires Sorted(es) && Reaches(es, starts, d) && BlockStarts(starts, maxBlock, total) && q < total
    ensures var e := Find(es, q); e in es && e.uncompressed <= q < e.uncompressed + d + maxBlock
  {
    hide Sorted, BlockStarts;
    var p := StartNear(starts, maxBlock, total, q);
    var e :| e in es && Before(e, p, d);
    FindBest(es, q, e);
  }

  lemma AscendingIsSorted(es: seq<OffsetPair>)
    requires Ascending(es)
    ensures Sorted(es) && IndexWire.UAscending(es, 0) && IndexWire.CAscending(es, 0)
  {
  }

  /** The data chunks as the table sees them. */
  lemma ChunksRecorded(o: Options, data: seq<byte>)
    requires ValidOptions(o) && |data| < 0x100_0000_0000
    ensures var starts, total := DataChunks(o, data), |Drain(o, Initial(o), data).bytes|;
            && BlockStarts(starts, LargestBlock(o, Initial(o), data), total) && Ascending(starts)
            && total <= 0x20_0000 * |data|
            && (starts != [] ==> 1 <= FirstLength(o, Initial(o), data) <= StreamFormat.MAX_BLOCK_SIZE)
  {
    hide Drain, Starts, FirstLength, LargestBlock, Laid;
    StartsLaid(o, Initial(o), data, 0, 0);
    BytesBound(o, Initial(o), data);
    FirstLengthBound(o, Initial(o), data);
    LaidStarts(DataChunks(o, data), LargestBlock(o, Initial(o), data), |data|, |Drain(o, Initial(o), data).bytes|);
  }

  /** The index of an input that decodes to something: it starts with the first data chunk, its
      entries are data chunks, strictly ascending, its spacing is that of the first block until there
      are too many entries, and for every offset it finds an entry within two spacings and a few of
      the largest blocks. */
  lemma TableReaches(o: Options, data: seq<byte>)
    requires ValidOptions(o) && |data| < 0x100_0000_0000 && Drain(o, Initial(o), data).bytes != []
    ensures var starts, total := DataChunks(o, data), |Drain(o, Initial(o), data).bytes|;
            var t, largest := TableOf(o, data), LargestBlock(o, Initial(o), data);
            var r := Reduce(t);
            && starts != [] && r.entries != [] && r.entries[0] == starts[0]
            && Ascending(r.entries) && (forall e <- r.entries :: e in starts)
            && Spacious(t, FirstLength(o, Initial(o), data), |starts|, total) && r.est == t.est * (DroppedAfterEach(t) + 1)
            && (DroppedAfterEach(t) <= 1 || t.est * DroppedAfterEach(t) < MIN_INDEX_DIST)
            && (forall q :: 0 <= q < total ==>
                  var e := Find(r.entries, q); e in r.entries && e.uncompressed <= q < e.uncompressed + ReachAfter(t, largest) + largest)
  {
    hide Drain, Starts, FirstLength, LargestBlock, BlockStarts, Ascending, Sorted, GapsAtLeast, Reaches, Reduce, AddAll, Growing, Spacious,
         DroppedAfterEach;
    var starts, total := DataChunks(o, data), |Drain(o, Initial(o), data).bytes|;
    var t, largest, first := TableOf(o, data), LargestBlock(o, Initial(o), data), FirstLength(o, Initial(o), data);
    ChunksRecorded(o, data);
    SomeStart(starts, largest, total);
    AddAllCovers(first, starts, largest, total);
    AddAllSpacious(first, starts, largest, total);
    ReduceCovers(t, starts, largest, total);
    DroppedFew(t, Last(starts).compressed, total);
    AscendingIsSorted(Reduce(t).entries);
    forall q | 0 <= q < total
      ensures var e := Find(Reduce(t).entries, q);
              e in Reduce(t).entries && e.uncompressed <= q < e.uncompressed + ReachAfter(t, largest) + largest
    {
      FindReaches(Reduce(t).entries, starts, ReachAfter(t, largest), largest, total, q);
    }
  }

  /** Few entries are dropped in a row: one, or so many that they span less than the smallest spacing
      a writer uses. */
  lemma DroppedFew(t: Table, compressed: nat, total: nat)
    requires Growing(t, compressed, total) && total < 0x2000_0000_0000_0000
    ensures DroppedAfterEach(t) <= 1 || t.est * DroppedAfterEach(t) < MIN_INDEX_DIST
  {
    hide RemoveCount, Sorted, GapsAtLeast, Within, Short;
    if |t.entries| >= MAX_INDEX_ENTRIES {
      ShortBound(|t.entries|, t.est);
      RemoveCountBound(|t.entries|, t.est, (|t.entries| + 1) / MAX_INDEX_ENTRIES);
    }
  }

  lemma SomeStart(starts: seq<OffsetPair>, maxBlock: nat, total: nat)
    requires BlockStarts(starts, maxBlock, total) && total > 0
    ensures starts != []
  {
  }

  // -------- reading on from a data chunk --------

  /** The largest block size limit in force at a data chunk. */
  function LimitInForce(o: Options, st: State, s: seq<byte>): nat
    decreases |s|
  {
    var c := Chunk(o, st, s);
    if !c.Next? then 0
    else Max(if c.payload != [] then st.maxBlock else 0, LimitInForce(o, c.state, s[c.length..]))
  }

  /** `st2` admits everything that `st` admits, short of a new stream. */
  predicate AsGood(st: State, st2: State) {
    && st2.headerRead == st.headerRead && st2.consumed == st.consumed
    && (st2.expectEof ==> st.expectEof) && st.maxBlock <= st2.maxBlock <= StreamFormat.MAX_BLOCK_SIZE
  }

  lemma SizesGrow(n: nat, m: nat)
    requires n <= m <= StreamFormat.MAX_BLOCK_SIZE
    ensures MaxBufSize(n) <= MaxBufSize(m)
  {
  }

  /** A chunk reads the same from a state that is as good. */
  lemma SameChunk(o: Options, st: State, st2: State, s: seq<byte>)
    requires AsGood(st, st2) && (s != [] ==> s[0] != CHUNK_TYPE_STREAM_IDENTIFIER)
    ensures var c, c2 := Chunk(o, st, s), Chunk(o, st2, s);
            && (c.End? ==> c2.End?)
            && (c.Next? ==> c2.Next? && c2.payload == c.payload && c2.length == c.length && AsGood(c.state, c2.state)
                            && c2.state.maxBlock == st2.maxBlock)
  {
    hide Le24, Block.SplitChunkBody, Block.DecodeChunkBody, Crc.Checksum, MaxBufSize, TotalMatches;
    SizesGrow(st.maxBlock, st2.maxBlock);
  }

  lemma EndIsEmpty(o: Options, st: State, s: seq<byte>)
    ensures Chunk(o, st, s).End? ==> s == []
  {
  }

  /** Within a stream, everything reads the same from a state that is as good. */
  lemma {:induction false} SameRest(o: Options, st: State, st2: State, s: seq<byte>)
    requires AsGood(st, st2) && st.consumed > 0 && Drain(o, st, s).error.None? && Drain(o, st, s).seamless
    ensures Drain(o, st2, s) == Drained(Drain(o, st, s).bytes, None, true, st2.maxBlock)
    decreases |s|
  {
    hide Chunk, Drain;
    DrainNext(o, st, s);
    DrainNext(o, st2, s);
    EndIsEmpty(o, st, s);
    SameChunk(o, st, st2, s);
    OffsetMoves(o, st, s);
    var c := Chunk(o, st, s);
    if c.Next? {
      SameRest(o, c.state, Chunk(o, st2, s).state, s[c.length..]);
    }
  }

  /** Once an identifier has been read, an EOF chunk is expected. */
  predicate Linked(st: State) { st.headerRead ==> st.expectEof }

  lemma LinkKept(o: Options, st: State, s: seq<byte>)
    ensures var c := Chunk(o, st, s);
            && (c.Next? && (Linked(st) || s[0] == CHUNK_TYPE_STREAM_IDENTIFIER) ==> Linked(c.state))
            && (c.Next? && c.payload != [] ==> st.headerRead)
  {
  }

  lemma LimitStep(o: Options, st: State, s: seq<byte>)
    ensures var c := Chunk(o, st, s);
            c.Next? ==>
              LimitInForce(o, st, s) ==
              Max(if c.payload != [] then st.maxBlock else 0, LimitInForce(o, c.state, s[c.length..]))
  {
    hide Chunk;
  }

  /** Reading from `s` on in state `st2` yields `bytes` to a clean end. */
  ghost predicate Yields(o: Options, st2: State, s: seq<byte>, bytes: seq<byte>) {
    Drain(o, st2, s) == Drained(bytes, None, true, st2.maxBlock)
  }

  /** From a data chunk on, a reader decodes what remains of the input. */
  lemma {:induction false} StartDecodes(o: Options, st: State, s: seq<byte>, at: nat, offset: nat, e: OffsetPair, st2: State)
    requires Drain(o, st, s).error.None? && Drain(o, st, s).seamless && st.consumed == offset && Linked(st)
    requires e in Starts(o, st, s, at, offset)
    requires st2.headerRead && st2.consumed == e.uncompressed
    requires LimitInForce(o, st, s) <= st2.maxBlock <= StreamFormat.MAX_BLOCK_SIZE
    ensures at <= e.compressed <= at + |s| && offset <= e.uncompressed <= offset + |Drain(o, st, s).bytes|
    ensures Yields(o, st2, s[e.compressed - at..], Drain(o, st, s).bytes[e.uncompressed - offset..])
    decreases |s|
  {
    hide Chunk, Drain, Starts, LimitInForce, FirstLength;
    StartsStep(o, st, s, at, offset);
    LimitStep(o, st, s);
    LinkKept(o, st, s);
    DrainNext(o, st, s);
    OffsetMoves(o, st, s);
    var c := Chunk(o, st, s);
    var rest := s[c.length..];
    var later := Starts(o, c.state, rest, at + c.length, offset + |c.payload|);
    if c.payload != [] && e == OffsetPair(at, offset) {
      assert s[0..] == s;
      DrainNext(o, st2, s);
      SameChunk(o, st, st2, s);
      SameRest(o, c.state, Chunk(o, st2, s).state, rest);
      assert Drain(o, st, s).bytes[0..] == Drain(o, st, s).bytes;
    } else {
      assert e in later;
      StartDecodes(o, c.state, rest, at + c.length, offset + |c.payload|, e, st2);
      assert s[e.compressed - at..] == rest[e.compressed - at - c.length..];
      var k := e.uncompressed - offset - |c.payload|;
      assert (c.payload + Drain(o, c.state, rest).bytes)[|c.payload| + k..] == Drain(o, c.state, rest).bytes[k..];
    }
  }

  /** An input that a reader decodes to the end, that is one stream as far as offsets go, and that
      opens with an identifier. */
  ghost predicate OneStream(o: Options, data: seq<byte>) {
    && ValidOptions(o) && data != [] && data[0] == CHUNK_TYPE_STREAM_IDENTIFIER
    && Drain(o, Initial(o), data).error.None? && Drain(o, Initial(o), data).seamless
  }

  /** A reader placed at any data chunk decodes the rest. */
  lemma ChunkIsBoundary(o: Options, data: seq<byte>, e: OffsetPair)
    requires OneStream(o, data) && e in DataChunks(o, data)
    ensures Boundary(o, Drain(o, Initial(o), data).bytes, LimitInForce(o, Initial(o), data), data, e)
  {
    hide Chunk, Drain, Starts, LimitInForce, FirstLength;
    var st, p, room := Initial(o), Drain(o, Initial(o), data).bytes, LimitInForce(o, Initial(o), data);
    StartsStep(o, st, data, 0, 0);
    LimitStep(o, st, data);
    LinkKept(o, st, data);
    DrainNext(o, st, data);
    OffsetMoves(o, st, data);
    var c := Chunk(o, st, data);
    var rest := data[c.length..];
    assert [] + Starts(o, c.state, rest, c.length, 0) == Starts(o, c.state, rest, c.length, 0);
    assert [] + Drain(o, c.state, rest).bytes == Drain(o, c.state, rest).bytes;
    StartBounds(o, c.state, rest, c.length, e);
    assert data[e.compressed..] == rest[e.compressed - c.length..];
    forall st2: State | st2.headerRead && st2.consumed == e.uncompressed && room <= st2.maxBlock <= StreamFormat.MAX_BLOCK_SIZE
      ensures Placed(p, room, e.uncompressed, [], Drain(o, st2, data[e.compressed..]))
    {
      StartDecodes(o, c.state, rest, c.length, 0, e, st2);
    }
  }

  lemma StartBounds(o: Options, st: State, s: seq<byte>, at: nat, e: OffsetPair)
    requires e in Starts(o, st, s, at, 0)
    ensures at <= e.compressed < at + |s| && e.uncompressed < |Drain(o, st, s).bytes|
  {
    hide Drain, Starts, Ascending;
    StartsLaid(o, st, s, at, 0);
  }

  // -------- seeking with such an index --------

  /** No empty stream with a smaller block size limit comes before the data. */
  ghost predicate LimitHolds(o: Options, data: seq<byte>) {
    LimitInForce(o, Initial(o), data) <= Drain(o, Initial(o), data).room
  }

  /** An identifier reads the same in every state. */
  lemma OpensAlike(o: Options, st: State, data: seq<byte>)
    requires data != [] && data[0] == CHUNK_TYPE_STREAM_IDENTIFIER
    ensures Chunk(o, st, data) == Chunk(o, Initial(o), data)
  {
  }

  lemma OneStreamOpens(o: Options, data: seq<byte>)
    requires OneStream(o, data) && LimitHolds(o, data)
    ensures Opens(o, Drain(o, Initial(o), data).bytes, LimitInForce(o, Initial(o), data), data)
  {
    hide Chunk, Drain, LimitInForce;
    var p, room := Drain(o, Initial(o), data).bytes, LimitInForce(o, Initial(o), data);
    DrainNext(o, Initial(o), data);
    EndIsEmpty(o, Initial(o), data);
    forall st: State | st.consumed == 0 && room <= st.maxBlock <= StreamFormat.MAX_BLOCK_SIZE
      ensures Placed(p, room, 0, [], Drain(o, st, data))
    {
      OpensAlike(o, st, data);
      DrainNext(o, st, data);
      assert p[0..] == p;
    }
  }

  /** The table of an input can be coded. */
  lemma TableSmall(o: Options, data: seq<byte>)
    requires ValidOptions(o) && |data| < 0x100_0000_0000
    ensures var r := Reduce(TableOf(o, data));
            && IndexWire.SmallTable(r) && Ascending(r.entries) && (forall e <- r.entries :: e in DataChunks(o, data))
    ensures var total := |Drain(o, Initial(o), data).bytes|;
            IndexWire.FitsI64(Some(total)) && IndexWire.FitsI64(Some(|data|))
  {
    hide Drain, Starts, FirstLength, LargestBlock, BlockStarts, Ascending, Sorted, GapsAtLeast, Reaches, Reduce, AddAll, Growing, Spacious,
         IndexWire.SmallTable, DroppedAfterEach;
    var starts, total := DataChunks(o, data), |Drain(o, Initial(o), data).bytes|;
    var t, largest, first := TableOf(o, data), LargestBlock(o, Initial(o), data), FirstLength(o, Initial(o), data);
    ChunksRecorded(o, data);
    if starts == [] {
      EmptyTable();
    } else {
      AddAllCovers(first, starts, largest, total);
      AddAllSpacious(first, starts, largest, total);
      ReduceCovers(t, starts, largest, total);
      StartsWithin(starts, largest, total);
      LastWithin(o, data);
      ReducedIsSmall(t, Last(starts).compressed, total);
    }
  }

  lemma EmptyTable()
    ensures Reduce(Table([], 0)) == Table([], 0) && IndexWire.SmallTable(Table([], 0)) && Ascending([])
  {
  }

  lemma StartsWithin(starts: seq<OffsetPair>, maxBlock: nat, total: nat)
    requires BlockStarts(starts, maxBlock, total) && starts != []
    ensures Last(starts).uncompressed < total
  {
  }

  lemma LastWithin(o: Options, data: seq<byte>)
    requires DataChunks(o, data) != []
    ensures Last(DataChunks(o, data)).compressed < |data|
  {
    hide Drain, Starts;
    assert Last(DataChunks(o, data)) in DataChunks(o, data);
    StartBounds(o, Initial(o), data, 0, Last(DataChunks(o, data)));
  }

  /** The index loads back as its table. */
  lemma IndexLoads(o: Options, data: seq<byte>)
    requires ValidOptions(o) && |data| < 0x100_0000_0000
    ensures var t, total := Reduce(TableOf(o, data)), |Drain(o, Initial(o), data).bytes|;
            var index := IndexWire.Serialize(t, Some(total), Some(|data|));
            && index != [] && LooksLikeFullChunk(index)
            && IndexWire.Parse(index) == Ok((IndexWire.Loaded(total, Some(|data|), t), |index|))
  {
    hide Drain, Reduce, TableOf, IndexWire.Parse, IndexWire.SmallTable, Ascending, IndexWire.UAscending, IndexWire.CAscending,
         LooksLikeFullChunk, IndexWire.Payload, IndexWire.Envelope;
    var t, total := Reduce(TableOf(o, data)), |Drain(o, Initial(o), data).bytes|;
    TableSmall(o, data);
    AscendingIsSorted(t.entries);
    IndexWire.IndexRoundTrip(t, Some(total), Some(|data|), []);
    var index := IndexWire.Serialize(t, Some(total), Some(|data|));
    assert index + [] == index;
    FramedLooksFull(IndexWire.Payload(t, Some(total), Some(|data|)));
  }

  lemma EntriesAreBoundaries(o: Options, data: seq<byte>)
    requires OneStream(o, data) && |data| < 0x100_0000_0000
    ensures Boundaries(o, Drain(o, Initial(o), data).bytes, LimitInForce(o, Initial(o), data), data, Reduce(TableOf(o, data)).entries)
  {
    hide Drain, Reduce, TableOf, LimitInForce, Boundary, Starts, Ascending, Sorted, OneStream, IndexWire.SmallTable, Laid;
    var es, p := Reduce(TableOf(o, data)).entries, Drain(o, Initial(o), data).bytes;
    OneStreamOptions(o, data);
    TableSmall(o, data);
    AscendingIsSorted(es);
    forall e | e in es ensures Boundary(o, p, LimitInForce(o, Initial(o), data), data, e) {
      ChunkIsBoundary(o, data, e);
    }
    if p == [] && es != [] {
      assert es[0] in es;
      StartBounds(o, Initial(o), data, 0, es[0]);
    }
  }

  lemma OneStreamOptions(o: Options, data: seq<byte>)
    requires OneStream(o, data)
    ensures ValidOptions(o) && data != [] && data[0] == CHUNK_TYPE_STREAM_IDENTIFIER && Drain(o, Initial(o), data).error.None?
  {
  }

  /** Random access to any stream that a reader decodes, with the index that `index_stream` builds for
      it: after any reads and seeks, seeking to an offset and reading to the end yields the content
      from that offset on. */
  method SeekIndexed(o: Options, data: seq<byte>, history: seq<Op>, offset: nat) returns (r: Result<seq<byte>, SeekError>)
    requires OneStream(o, data) && LimitHolds(o, data) && |data| < 0x100_0000_0000
    ensures var p := Drain(o, Initial(o), data).bytes;
            r == if offset > I64_MAX then Err(InvalidInput) else if offset > |p| then Err(PastEnd) else Ok(p[offset..])
  {
    hide Drain, Placed, Opens, Boundaries, IndexWire.Parse, Sorted, OneStream, LimitHolds, LimitInForce, TableOf, Reduce, IndexWire.Serialize,
         LooksLikeFullChunk;
    OneStreamOptions(o, data);
    ghost var p, room := Drain(o, Initial(o), data).bytes, LimitInForce(o, Initial(o), data);
    var built := IndexStream.IndexStream(data, o);
    IndexLoads(o, data);
    var loaded, index := LoadIndex(data, built.value);
    var reader := new Reader(o, data);
    var seeker := new ReadSeeker(reader, index);
    OneStreamOpens(o, data);
    EntriesAreBoundaries(o, data);
    LimitFits(o, data);
    OpensAt(o, p, room, data, reader.Frontier());
    r := seeker.Wander(history, offset, p, room);
  }

  lemma LimitFits(o: Options, data: seq<byte>)
    requires OneStream(o, data) && LimitHolds(o, data)
    ensures LimitInForce(o, Initial(o), data) <= o.maxBlockUser <= StreamFormat.MAX_BLOCK_SIZE
  {
    hide Chunk, LimitInForce;
  }
}
