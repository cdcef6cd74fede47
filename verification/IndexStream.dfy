/** Building an index from chunk headers alone, without decoding any block. */
module IndexStream {
  import opened Bytes
  import opened IndexTable
  import opened IndexWire
  import opened StreamFormat
  import Block
  import Crc
  import Index

  const CHUNK_TYPE_LEGACY_COMPRESSED_DATA: byte := 0x00
  /** "S2sTwO" and "sNaPpY" */
  const MAGIC_BODY_S2: seq<byte> := [0x53, 0x32, 0x73, 0x54, 0x77, 0x4f]
  const MAGIC_BODY_SNAPPY: seq<byte> := [0x73, 0x4e, 0x61, 0x50, 0x70, 0x59]

  // -------- what an index of a stream should hold --------

  /** The start of every chunk that decodes to something, paired with the number of bytes decoded
      before it; `at` and `offset` are those of the unread input. */
  function Starts(o: Options, st: State, s: seq<byte>, at: nat, offset: nat): seq<OffsetPair>
    decreases |s|
  {
    var c := Chunk(o, st, s);
    if !c.Next? then []
    else
      (if c.payload != [] then [OffsetPair(at, offset)] else [])
      + Starts(o, c.state, s[c.length..], at + c.length, offset + |c.payload|)
  }

  /** The decoded length of the first chunk that decodes to something. */
  function FirstLength(o: Options, st: State, s: seq<byte>): nat
    decreases |s|
  {
    var c := Chunk(o, st, s);
    if !c.Next? then 0 else if c.payload != [] then |c.payload| else FirstLength(o, c.state, s[c.length..])
  }

  /** The table of a whole input: its data chunks added in order, with the spacing of the first. */
  function TableOf(o: Options, data: seq<byte>): Table {
    var starts := Starts(o, Initial(o), data, 0, 0);
    var t := AddAll(Table([], FirstLength(o, Initial(o), data)), starts);
    if starts == [] || t.Err? then Table([], 0) else t.value
  }

  // -------- any table built by adding ever later entries --------

  predicate Within(es: seq<OffsetPair>, compressed: nat, total: nat) {
    forall e <- es :: e.compressed <= compressed && e.uncompressed <= total
  }

  /** The spacing is that of a block, or paid for by the bytes spanned. */
  predicate Affordable(est: nat, total: nat) { est <= StreamFormat.MAX_BLOCK_SIZE || est * 0x8000 <= total }

  /** Every entry past the limit has doubled the spacing. */
  predicate Short(len: nat, est: nat) { len <= MAX_INDEX_ENTRIES || Pow2(len - MAX_INDEX_ENTRIES) <= est }

  /** The table over the first `total` bytes: sorted, spaced, affordable and hardly longer than the
      limit. */
  predicate Growing(t: Table, compressed: nat, total: nat) {
    && Sorted(t.entries) && GapsAtLeast(t.entries, t.est) && (t.entries != [] ==> t.est >= 1)
    && Within(t.entries, compressed, total) && Affordable(t.est, total) && Short(|t.entries|, t.est)
  }

  lemma GapCons(e: OffsetPair, tail: seq<OffsetPair>, est: nat)
    requires GapsAtLeast(tail, est) && (tail != [] ==> tail[0].uncompressed - e.uncompressed >= est)
    ensures GapsAtLeast([e] + tail, est)
  {
  }

  lemma SortedTail(es: seq<OffsetPair>, i: nat)
    requires Sorted(es) && 0 < i <= |es|
    ensures Sorted(es[i..]) && (i < |es| ==> es[i].uncompressed >= es[0].uncompressed)
  {
  }

  lemma {:induction false} ThinGaps(es: seq<OffsetPair>, est: nat)
    requires Sorted(es)
    ensures GapsAtLeast(Thin(es, est), est) && |Thin(es, est)| <= |es|
    ensures es != [] ==> Thin(es, est) != [] && Thin(es, est)[0] == es[0]
    decreases |es|
  {
    hide Sorted, GapsAtLeast, Near;
    if es == [] {
      NoGaps(est);
    } else {
      var n := Near(es[1..], es[0].uncompressed, est);
      var rest := es[1 + n..];
      SortedTail(es, 1 + n);
      ThinGaps(rest, est);
      if rest != [] {
        assert rest[0] == es[1..][n];
      }
      GapCons(es[0], Thin(rest, est), est);
    }
  }

  lemma NoGaps(est: nat)
    ensures GapsAtLeast([], est)
  {
  }

  lemma Appended(es: seq<OffsetPair>, p: OffsetPair, est: nat)
    requires Sorted(es) && GapsAtLeast(es, est) && Within(es, p.compressed, p.uncompressed)
    requires es != [] ==> p.uncompressed - Last(es).uncompressed >= est
    ensures Sorted(es + [p]) && GapsAtLeast(es + [p], est) && Within(es + [p], p.compressed, p.uncompressed)
    ensures es != [] ==> Last(es).compressed <= p.compressed
  {
    if es != [] {
      assert Last(es) in es;
    }
  }

  lemma ShortGrows(len: nat, est: nat)
    requires est >= 1 && Short(len, est)
    ensures len + 1 <= MAX_INDEX_ENTRIES ==> Short(len + 1, est)
    ensures forall k: nat :: k <= len + 1 ==> Short(k, est * 2)
  {
    hide Pow2;
    forall k: nat | k <= len + 1 ensures Short(k, est * 2) {
      if k > MAX_INDEX_ENTRIES {
        Pow2Double(len + 1 - MAX_INDEX_ENTRIES);
        Pow2Grows(k - MAX_INDEX_ENTRIES, len + 1 - MAX_INDEX_ENTRIES);
      }
    }
  }

  /** What thinning makes of a table that has become too long. */
  lemma ThinnedGrows(es: seq<OffsetPair>, est: nat, compressed: nat, total: nat)
    requires es != [] && Sorted(es) && GapsAtLeast(es, est) && Within(es, compressed, total) && est >= 1
    requires |es| > MAX_INDEX_ENTRIES && Short(|es| - 1, est)
    ensures Growing(ReduceLight(Table(es, est)), compressed, total)
    ensures forall e <- Thin(es, est * 2) :: e in es
  {
    hide Thin, Pow2, Sorted, GapsAtLeast, Short;
    GapSpan(es, est);
    assert Last(es) in es;
    Paid(|es|, est, Last(es).uncompressed);
    ThinGaps(es, est * 2);
    Index.ThinSorted(es, est * 2);
    ShortGrows(|es| - 1, est);
  }

  lemma Paid(len: nat, est: nat, last: nat)
    requires len > MAX_INDEX_ENTRIES && last >= (len - 1) * est
    ensures est * 2 * 0x8000 <= last
  {
    LongSpan(len, est, last);
  }

  /** Recording a later position: never an error, and the table keeps growing soundly. */
  lemma AddGrows(t: Table, p: OffsetPair)
    requires Growing(t, p.compressed, p.uncompressed) && t.est >= 1
    requires p.compressed <= I64_MAX && p.uncompressed <= I64_MAX
    ensures var r := Add(t, p);
            && r.Ok? && Growing(r.value, p.compressed, p.uncompressed) && r.value.est >= 1
            && forall e <- r.value.entries :: e in t.entries || e == p
  {
    hide Thin, Sorted, GapsAtLeast, Within, Affordable, Short;
    if t.entries == [] || SaturatingSub(p.uncompressed, Last(t.entries).uncompressed) >= t.est {
      Appended(t.entries, p, t.est);
      ShortGrows(|t.entries|, t.est);
      if |t.entries| + 1 > MAX_INDEX_ENTRIES {
        ThinnedGrows(t.entries + [p], t.est, p.compressed, p.uncompressed);
      }
    }
  }

  // -------- the finished table can be coded --------

  lemma {:induction false} EveryNthHalves(es: seq<OffsetPair>, k: nat)
    requires k >= 2
    ensures 2 * |EveryNth(es, k)| <= |es| + 1
    decreases |es|
  {
    if es != [] {
      EveryNthHalves(if k <= |es| then es[k..] else [], k);
    }
  }

  lemma {:induction false} RemoveCountBound(len: nat, est: nat, n: nat)
    ensures var r := RemoveCount(len, est, n); r == n || est * r < MIN_INDEX_DIST
    decreases SaturatingSub(len, n)
  {
    if est * (n + 1) < MIN_INDEX_DIST && len / (n + 1) > 1000 {
      RemoveCountBound(len, est, n + 1);
    }
  }

  lemma BigPower()
    ensures Pow2(61) == 0x2000_0000_0000_0000
  {
    assert Pow2(5) == 0x20;
    assert Pow2(12) == 0x1000;
    assert Pow2(20) == 0x10_0000;
    assert Pow2(28) == 0x1000_0000;
    assert Pow2(36) == 0x10_0000_0000;
    assert Pow2(44) == 0x1000_0000_0000;
    assert Pow2(52) == 0x10_0000_0000_0000;
    assert Pow2(60) == 0x1000_0000_0000_0000;
  }

  lemma ShortBound(len: nat, est: nat)
    requires Short(len, est) && est < 0x2000_0000_0000_0000
    ensures len < MAX_INDEX_ENTRIES + 61
  {
    BigPower();
    hide Pow2;
    if len >= MAX_INDEX_ENTRIES + 61 {
      Pow2Grows(61, len - MAX_INDEX_ENTRIES);
    }
  }

  /** The final reduction leaves a table of small numbers, with no entry that was not there. */
  lemma ReducedIsSmall(t: Table, compressed: nat, total: nat)
    requires Growing(t, compressed, total) && Small(compressed) && Small(total)
    ensures SmallTable(Reduce(t)) && forall e <- Reduce(t).entries :: e in t.entries
  {
    hide EveryNth, Sorted, GapsAtLeast, RemoveCount, Short;
    var len := |t.entries|;
    ShortBound(len, t.est);
    if len >= MAX_INDEX_ENTRIES {
      var first := (len + 1) / MAX_INDEX_ENTRIES;
      assert first == 1;
      var n := RemoveCount(len, t.est, first);
      RemoveCountBound(len, t.est, first);
      SmallProduct(t.est, n);
      EveryNthHalves(t.entries, n + 1);
      EveryNthMembers(t.entries, n + 1);
    }
  }

  lemma SmallProduct(est: nat, n: nat)
    requires est < 0x1000_0000_0000_0000 && (n == 1 || est * n < MIN_INDEX_DIST)
    ensures Small(est + est * n)
  {
  }

  // -------- walking a stream --------

  /** The decoded length a chunk declares, zero for metadata, or why the walk stops at it. */
  function DeclaredLength(kind: byte, body: seq<byte>): Result<nat, IndexTable.Error> {
    if kind == CHUNK_TYPE_LEGACY_COMPRESSED_DATA then
      if |body| < CHECKSUM_SIZE then Err(Invalid)
      else
        var v := ReadUvarint(body, CHECKSUM_SIZE);
        if v.None? || v.value.0 > StreamFormat.MAX_BLOCK_SIZE then Err(Invalid) else Ok(v.value.0)
    else if kind == CHUNK_TYPE_COMPRESSED_DATA || kind == CHUNK_TYPE_COMPRESSED_DATA_COMP_CRC then
      if |body| < CHECKSUM_SIZE then Err(Invalid)
      else
        var split := Block.SplitChunkBody(body[CHECKSUM_SIZE..]);
        if split.Err? || split.value.0 > StreamFormat.MAX_BLOCK_SIZE then Err(Invalid) else Ok(split.value.0)
    else if kind == CHUNK_TYPE_UNCOMPRESSED_DATA then
      if |body| < CHECKSUM_SIZE || |body| - CHECKSUM_SIZE > StreamFormat.MAX_BLOCK_SIZE then Err(Invalid)
      else Ok(|body| - CHECKSUM_SIZE)
    else if kind == CHUNK_TYPE_STREAM_IDENTIFIER then
      if |body| != MAGIC_BODY_LEN then Err(BadFormat)
      else if body[..5] != MAGIC_BODY && body != MAGIC_BODY_S2 && body != MAGIC_BODY_SNAPPY then Err(BadFormat)
      else Ok(0)
    else if kind == CHUNK_TYPE_EOF then Ok(0)
    else if kind <= MAX_NON_SKIPPABLE_CHUNK then Err(BadFormat)
    else Ok(0)
  }

  lemma DeclaredBound(kind: byte, body: seq<byte>)
    ensures var d := DeclaredLength(kind, body);
            d.Ok? ==> d.value <= StreamFormat.MAX_BLOCK_SIZE && (d.value > 0 ==> |body| >= CHECKSUM_SIZE)
  {
    hide Block.SplitChunkBody, ReadUvarint;
  }

  /** For a chunk a reader accepts, the declared length is what it decodes to. */
  lemma DeclaredIsDecoded(o: Options, st: State, s: seq<byte>)
    requires ValidOptions(o) && st.maxBlock <= StreamFormat.MAX_BLOCK_SIZE
    ensures var c := Chunk(o, st, s);
            c.Next? ==>
              && |s| >= 4 && c.length == 4 + Le24(s, 1) <= |s| && c.state.maxBlock <= StreamFormat.MAX_BLOCK_SIZE
              && DeclaredLength(s[0], Body(s, Le24(s, 1))) == Ok(|c.payload|)
    ensures var c := Chunk(o, st, s); c.End? ==> s == []
  {
    hide Le24, Le32, Block.SplitChunkBody, BlockSizeFromIndicator, Crc.Checksum;
    var c := Chunk(o, st, s);
    if c.Next? {
      var len := Le24(s, 1);
      var body := Body(s, len);
      if s[0] == CHUNK_TYPE_COMPRESSED_DATA || s[0] == CHUNK_TYPE_COMPRESSED_DATA_COMP_CRC {
        SplitBound(body[4..]);
      }
    }
  }

  lemma SplitBound(body: seq<byte>)
    ensures Block.SplitChunkBody(body).Ok? ==> Block.SplitChunkBody(body).value.0 <= StreamFormat.MAX_BLOCK_SIZE
  {
  }

  /** One chunk further along the stream. */
  lemma StartsStep(o: Options, st: State, s: seq<byte>, at: nat, offset: nat)
    ensures var c := Chunk(o, st, s);
            && (c.Next? ==>
                  Starts(o, st, s, at, offset) ==
                  (if c.payload != [] then [OffsetPair(at, offset)] else [])
                  + Starts(o, c.state, s[c.length..], at + c.length, offset + |c.payload|))
            && (!c.Next? ==> Starts(o, st, s, at, offset) == [])
            && FirstLength(o, st, s) == (if !c.Next? then 0 else if c.payload != [] then |c.payload|
                                         else FirstLength(o, c.state, s[c.length..]))
            && Drain(o, st, s).bytes == (if c.Next? then c.payload + Drain(o, c.state, s[c.length..]).bytes else [])
            && Drain(o, st, s).error == (if c.Next? then Drain(o, c.state, s[c.length..]).error
                                         else if c.End? then None else Some(c.error))
  {
    hide Chunk;
  }

  /** Whether `index_stream` starts at all: it insists on an identifier, or takes an EOF chunk. */
  predicate StartsProperly(data: seq<byte>) {
    data == [] || data[0] == CHUNK_TYPE_STREAM_IDENTIFIER || data[0] == CHUNK_TYPE_EOF
  }

  /** How far the walk has come on an input that a reader decodes: `recorded` are the data chunks
      passed, and the rest is what remains to be decoded and recorded. */
  ghost predicate Walking(o: Options, data: seq<byte>, st: State, pos: nat, uncompPos: nat, recorded: seq<OffsetPair>)
    requires pos <= |data|
  {
    && ValidOptions(o) && st.maxBlock <= StreamFormat.MAX_BLOCK_SIZE
    && var d, rest := Drain(o, Initial(o), data), Drain(o, st, data[pos..]);
       && rest.error.None? && uncompPos + |rest.bytes| == |d.bytes|
       && Starts(o, Initial(o), data, 0, 0) == recorded + Starts(o, st, data[pos..], pos, uncompPos)
       && (recorded == [] ==> FirstLength(o, st, data[pos..]) == FirstLength(o, Initial(o), data))
  }

  lemma WalkBegins(o: Options, data: seq<byte>)
    requires ValidOptions(o) && Drain(o, Initial(o), data).error.None?
    ensures Walking(o, data, Initial(o), 0, 0, [])
  {
    hide Drain, Starts, FirstLength;
    assert data[0..] == data;
    assert [] + Starts(o, Initial(o), data, 0, 0) == Starts(o, Initial(o), data, 0, 0);
  }

  /** One chunk of a walk along an input that a reader decodes. */
  lemma WalkOn(o: Options, data: seq<byte>, st: State, pos: nat, uncompPos: nat, recorded: seq<OffsetPair>)
    requires pos <= |data| && Walking(o, data, st, pos, uncompPos, recorded)
    ensures var s := data[pos..];
            var c := Chunk(o, st, s);
            if s == [] then uncompPos == |Drain(o, Initial(o), data).bytes| && recorded == Starts(o, Initial(o), data, 0, 0)
            else
              && c.Next? && |s| >= 4 && c.length == 4 + Le24(s, 1) <= |s|
              && DeclaredLength(s[0], Body(s, Le24(s, 1))) == Ok(|c.payload|)
              && (c.payload != [] && recorded == [] ==> |c.payload| == FirstLength(o, Initial(o), data))
              && Walking(o, data, c.state, pos + c.length, uncompPos + |c.payload|,
                         if c.payload != [] then recorded + [OffsetPair(pos, uncompPos)] else recorded)
  {
    hide Chunk, Drain, Starts, FirstLength, Le24, DeclaredLength;
    var s := data[pos..];
    StartsStep(o, st, s, pos, uncompPos);
    DeclaredIsDecoded(o, st, s);
    NoInput(o, st);
    var c := Chunk(o, st, s);
    if c.Next? {
      assert s[c.length..] == data[pos + c.length..];
      var later := Starts(o, c.state, s[c.length..], pos + c.length, uncompPos + |c.payload|);
      assert recorded + ([OffsetPair(pos, uncompPos)] + later) == recorded + [OffsetPair(pos, uncompPos)] + later;
      assert recorded + ([] + later) == recorded + later;
    } else {
      assert recorded + [] == recorded;
    }
  }

  lemma NoInput(o: Options, st: State)
    ensures !Chunk(o, st, []).Next?
  {
  }

  /** The table after recording `recorded`, the first of which had length `first`. */
  ghost predicate Recorded(t: Table, first: nat, recorded: seq<OffsetPair>) {
    if recorded == [] then t == Table([], 0) else AddAll(Table([], first), recorded) == Ok(t) && t.est >= 1
  }

  /** Records a block start; the first block sets the spacing. */
  method Record(index: Index.Index, compressed: nat, uncompressed: nat, length: nat)
    requires Growing(index.Contents(), compressed, uncompressed) && 1 <= length <= StreamFormat.MAX_BLOCK_SIZE
    requires compressed <= I64_MAX && uncompressed <= I64_MAX
    modifies index
    ensures Growing(index.Contents(), compressed, uncompressed)
    ensures forall first, recorded :: old(Recorded(index.Contents(), first, recorded)) && (recorded == [] ==> first == length) ==>
              Recorded(index.Contents(), first, recorded + [OffsetPair(compressed, uncompressed)])
  {
    hide Sorted, GapsAtLeast, Within, Affordable, Short, IndexTable.Add;
    ghost var before := index.Contents();
    if index.est == 0 {
      FirstSpacing(index.Contents(), length, compressed, uncompressed);
      index.est := length;
    }
    ghost var p := OffsetPair(compressed, uncompressed);
    AddGrows(index.Contents(), p);
    ghost var start := index.Contents();
    var r := index.Add(compressed, uncompressed);
    forall first, recorded | Recorded(before, first, recorded) && (recorded == [] ==> first == length)
      ensures Recorded(index.Contents(), first, recorded + [p])
    {
      if recorded == [] {
        assert AddAll(Table([], first), recorded) == Ok(Table([], first));
      }
      AddAllAppend(Table([], first), recorded, p);
    }
  }

  lemma FirstSpacing(t: Table, length: nat, compressed: nat, total: nat)
    requires Growing(t, compressed, total) && t.est == 0 && 1 <= length <= StreamFormat.MAX_BLOCK_SIZE
    ensures Growing(Table(t.entries, length), compressed, total)
  {
  }

  lemma GrowsWith(t: Table, compressed: nat, total: nat, compressed': nat, total': nat)
    requires Growing(t, compressed, total) && compressed <= compressed' && total <= total'
    ensures Growing(t, compressed', total')
  {
    hide Sorted, GapsAtLeast, Short;
  }

  lemma EmptyGrows()
    ensures Growing(Table([], 0), 0, 0)
  {
  }

  /** Walks a stream and returns its encoded index.  On every input that a reader decodes to the end,
      it succeeds exactly when the input starts properly; then the totals are the bytes read and the
      length of the input, and the table is that of its data chunks. */
  method IndexStream(data: seq<byte>, ghost o: Options) returns (r: Result<seq<byte>, IndexTable.Error>)
    requires |data| < 0x100_0000_0000
    ensures var d := Drain(o, Initial(o), data);
            ValidOptions(o) && d.error.None? ==>
              && (r.Ok? <==> StartsProperly(data))
              && (r.Ok? ==> r.value == Serialize(Reduce(TableOf(o, data)), Some(|d.bytes|), Some(|data|)))
  {
    hide Drain, Starts, FirstLength, Chunk, DeclaredLength, Walking, Growing, Le24, Serialize, SmallTable, Reduce, Sorted, AddAll;
    var index := new Index.Index();
    var compPos: nat, uncompPos: nat, readHeader := 0, 0, false;
    ghost var ok, st := ValidOptions(o) && Drain(o, Initial(o), data).error.None?, Initial(o);
    ghost var first, recorded: seq<OffsetPair> := FirstLength(o, Initial(o), data), [];
    EmptyGrows();
    if ok {
      WalkBegins(o, data);
    }
    while true
      invariant fresh(index) && compPos <= |data| && uncompPos <= 0x20_0000 * compPos
      invariant (compPos == 0) == !readHeader && (readHeader ==> StartsProperly(data))
      invariant Growing(index.Contents(), compPos, uncompPos)
      invariant ok ==> Walking(o, data, st, compPos, uncompPos, recorded) && Recorded(index.Contents(), first, recorded)
      decreases |data| - compPos
    {
      ghost var s := data[compPos..];
      if ok {
        WalkOn(o, data, st, compPos, uncompPos, recorded);
      }
      if compPos == |data| {
        Small40(compPos, uncompPos);
        ReducedIsSmall(index.Contents(), compPos, uncompPos);
        GrowingSorted(index.Contents(), compPos, uncompPos);
        ghost var t := index.Contents();
        var appended, out := index.AppendTo([], Some(uncompPos), Some(compPos));
        assert [] + Serialize(Reduce(t), Some(uncompPos), Some(compPos)) == Serialize(Reduce(t), Some(uncompPos), Some(compPos));
        return Ok(out);
      }
      if |data| - compPos < 4 {
        return Err(IndexTable.Io);
      }
      var startChunk := compPos;
      var kind := data[compPos];
      if !readHeader {
        if kind != CHUNK_TYPE_STREAM_IDENTIFIER && kind != CHUNK_TYPE_EOF {
          return Err(BadFormat);
        }
        readHeader := true;
      }
      var len := Le24(data[compPos..], 1);
      if |data| - compPos - 4 < len {
        return Err(Truncated);
      }
      compPos := compPos + 4 + len;
      var body := data[startChunk + 4..compPos];
      assert body == Body(s, len);
      var length := DeclaredLength(kind, body);
      if length.Err? {
        return Err(length.error);
      }
      DeclaredBound(kind, body);
      ghost var was := uncompPos;
      if length.value > 0 {
        Small40(startChunk, uncompPos);
        Record(index, startChunk, uncompPos, length.value);
        uncompPos := uncompPos + length.value;
      }
      GrowsWith(index.Contents(), startChunk, was, compPos, uncompPos);
      if ok {
        st := Chunk(o, st, s).state;
        if length.value > 0 {
          recorded := recorded + [OffsetPair(startChunk, was)];
        }
      }
    }
  }

  /** Every entry of the encoded index is the start of a data chunk paired with the number of bytes
      decoded before it. */
  lemma EntriesAreStarts(o: Options, data: seq<byte>)
    ensures forall e <- Reduce(TableOf(o, data)).entries :: e in Starts(o, Initial(o), data, 0, 0)
  {
    hide Starts, FirstLength, AddAll, EveryNth, RemoveCount;
    var starts, t := Starts(o, Initial(o), data, 0, 0), TableOf(o, data);
    AddAllMembers(Table([], FirstLength(o, Initial(o), data)), starts);
    if |t.entries| >= MAX_INDEX_ENTRIES {
      EveryNthMembers(t.entries, RemoveCount(|t.entries|, t.est, (|t.entries| + 1) / MAX_INDEX_ENTRIES) + 1);
    }
  }

  lemma {:induction false} AddAllMembers(t: Table, calls: seq<OffsetPair>)
    requires t.entries == []
    ensures var r := AddAll(t, calls); r.Ok? ==> forall e <- r.value.entries :: e in calls
    decreases |calls|
  {
    hide Add;
    if calls != [] {
      var front, p := calls[..|calls| - 1], calls[|calls| - 1];
      AddAllMembers(t, front);
      if AddAll(t, front).Ok? {
        AddMembers(AddAll(t, front).value, p);
      }
    }
  }

  lemma AddMembers(t: Table, p: OffsetPair)
    ensures Add(t, p).Ok? ==> forall e <- Add(t, p).value.entries :: e in t.entries || e == p
  {
    hide Thin;
    ThinMembers(t.entries + [p], t.est * 2);
  }

  lemma {:induction false} ThinMembers(es: seq<OffsetPair>, est: nat)
    ensures forall e <- Thin(es, est) :: e in es
    decreases |es|
  {
    if es != [] {
      ThinMembers(es[1 + Near(es[1..], es[0].uncompressed, est)..], est);
    }
  }

  lemma Small40(compPos: nat, uncompPos: nat)
    requires compPos < 0x100_0000_0000 && uncompPos <= 0x20_0000 * compPos
    ensures Small(compPos) && Small(uncompPos) && compPos <= I64_MAX && uncompPos <= I64_MAX
    ensures FitsI64(Some(compPos)) && FitsI64(Some(uncompPos))
  {
  }

  lemma GrowingSorted(t: Table, compressed: nat, total: nat)
    requires Growing(t, compressed, total)
    ensures Sorted(t.entries)
  {
  }
}
