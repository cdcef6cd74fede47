/** The multi-threaded decoder: the dispatcher reads chunk headers in order and handles everything but
    compressed data itself, workers decode, and the writer thread drains results in order. */
module MtReader {
  import opened Bytes
  import opened StreamFormat
  import opened StreamReader
  import Block
  import Crc
  import P = Pipeline

  /** A compressed chunk body on its way to a worker, its checksum taken off. */
  datatype DecodeJob = DecodeJob(comp: bool, body: seq<byte>, checksum: nat, maxBlock: nat)

  type Decoded = Result<seq<byte>, Error>

  type Entry = P.Entry<DecodeJob, Decoded>

  // -------- workers --------

  /** What a worker makes of a job. */
  function Work(o: Options, job: DecodeJob): Decoded {
    var split := Block.SplitChunkBody(job.body);
    if split.Err? then Err(InBlock(split.error))
    else if split.value.0 > job.maxBlock then Err(TooLarge)
    else
      var d := Block.DecodeChunkBody(job.body);
      if d.Err? then Err(InBlock(d.error))
      else if !o.ignoreCrc && Crc.Checksum(if job.comp then split.value.1 else d.value) != job.checksum then Err(Crc)
      else Ok(d.value)
  }

  /** One round of the worker loop. */
  method Decode(o: Options, job: DecodeJob) returns (r: Decoded)
    ensures r == Work(o, job)
  {
    hide Block.SplitChunkBody, Block.DecodeChunkBody, Crc.Checksum;
    var split := Block.SplitChunkBody(job.body);
    if split.Err? {
      return Err(InBlock(split.error));
    }
    if split.value.0 > job.maxBlock {
      return Err(TooLarge);
    }
    var d := Block.AppendDecodedChunkBody([], job.body);
    if d.Err? {
      return Err(InBlock(d.error));
    }
    assert forall x: seq<byte> :: [] + x == x;
    if !o.ignoreCrc {
      if Crc.Checksum(if job.comp then split.value.1 else d.value) != job.checksum {
        return Err(Crc);
      }
    }
    return Ok(d.value);
  }

  /** A worker decodes exactly what the single-threaded reader would. */
  lemma WorkIsDecodeCompressed(o: Options, comp: bool, buf: seq<byte>, maxBlock: nat)
    requires |buf| >= CHECKSUM_SIZE
    ensures Work(o, DecodeJob(comp, buf[4..], Le32(buf, 0), maxBlock)) == DecodeCompressed(o, comp, buf, maxBlock)
    ensures Block.SplitChunkBody(buf[4..]).Err? ==> DecodeCompressed(o, comp, buf, maxBlock).Err?
    ensures var d := DecodeCompressed(o, comp, buf, maxBlock);
            d.Ok? ==> Block.SplitChunkBody(buf[4..]).Ok? && |d.value| == Block.SplitChunkBody(buf[4..]).value.0
  {
    hide Block.SplitChunkBody, Crc.Checksum, Le32;
  }

  ghost function ResultOf(o: Options, e: Entry): Decoded {
    match e
    case Direct(r) => r
    case Job(j) => Work(o, j)
  }

  // -------- the dispatcher --------

  /** The state of the dispatcher, with `emitted` bytes of the current stream dispatched. */
  ghost function StateOf(reader: Reader, emitted: nat): State
    reads reader
  {
    State(reader.headerRead, reader.expectEof, reader.maxBlock, emitted)
  }

  /** What dispatching a chunk yields: an entry for the pipeline or nothing, and the new count. */
  type Dispatched = Result<(Option<Entry>, nat), Error>

  /** The dispatcher agrees with the meaning of the chunk, except that a compressed chunk may turn out
      bad only in a worker. */
  ghost predicate Agrees(o: Options, step: Step, from: nat, r: Dispatched, pos: nat, headerRead: bool, expectEof: bool, maxBlock: nat)
  {
    if r.Err? then step.Fail?
    else
      var (entry, emitted) := r.value;
      var result := if entry.Some? then ResultOf(o, entry.value) else Ok([]);
      if result.Err? then step.Fail?
      else step.Next? && step.payload == result.value && pos == from - 4 + step.length
           && step.state == State(headerRead, expectEof, maxBlock, emitted)
  }

  method DispatchCompressed(reader: Reader, comp: bool, len: nat, emitted: nat) returns (r: Dispatched)
    requires reader.Valid() && reader.pos >= 4 && len >= CHECKSUM_SIZE
    modifies reader`pos
    ensures reader.Valid() && reader.pos >= old(reader.pos)
    ensures Agrees(reader.o, CompressedChunk(reader.o, StateOf(reader, emitted), comp, len, old(reader.Here())), old(reader.pos), r,
                   reader.pos, reader.headerRead, reader.expectEof, reader.maxBlock)
  {
    hide DecodeCompressed, Work, Le32, Block.SplitChunkBody;
    if len > MaxBufSize(reader.maxBlock) {
      return Err(Corrupt);
    }
    var ok, buf := reader.ReadExact(len);
    if !ok {
      return Err(Corrupt);
    }
    BodyIs(reader.data, old(reader.pos), len);
    var checksum := Le32(buf, 0);
    var body := buf[CHECKSUM_SIZE..];
    WorkIsDecodeCompressed(reader.o, comp, buf, reader.maxBlock);
    var split := Block.SplitChunkBody(body);
    if split.Err? {
      return Err(InBlock(split.error));
    }
    return Ok((Some(P.Job(DecodeJob(comp, body, checksum, reader.maxBlock))), emitted + split.value.0));
  }

  method DispatchUncompressed(reader: Reader, len: nat, emitted: nat) returns (r: Dispatched)
    requires reader.Valid() && reader.pos >= 4 && len >= CHECKSUM_SIZE && reader.maxBlock <= MAX_BLOCK_SIZE
    modifies reader`pos
    ensures reader.Valid() && reader.pos >= old(reader.pos)
    ensures Agrees(reader.o, UncompressedChunk(reader.o, StateOf(reader, emitted), len, old(reader.Here())), old(reader.pos), r,
                   reader.pos, reader.headerRead, reader.expectEof, reader.maxBlock)
  {
    hide Crc.Checksum, Le32;
    BodyParts(reader.data, reader.pos, len);
    if len > MaxBufSize(reader.maxBlock) {
      BufHoldsBlock(reader.maxBlock, len);
      return Err(Corrupt);
    }
    var n := len - CHECKSUM_SIZE;
    if n > reader.maxBlock {
      return Err(TooLarge);
    }
    var ok, buf := reader.ReadExact(CHECKSUM_SIZE);
    if !ok {
      return Err(Corrupt);
    }
    var checksum := Le32(buf, 0);
    ok, buf := reader.ReadExact(n);
    if !ok {
      return Err(Corrupt);
    }
    if !reader.o.ignoreCrc && Crc.Checksum(buf) != checksum {
      return Err(Crc);
    }
    return Ok((Some(P.Direct(Ok(buf))), emitted + n));
  }

  method DispatchEof(reader: Reader, len: nat, emitted: nat) returns (r: Dispatched)
    requires reader.Valid() && reader.pos >= 4
    modifies reader`pos, reader`expectEof, reader`headerRead
    ensures reader.Valid() && reader.pos >= old(reader.pos)
    ensures Agrees(reader.o, EofChunk(reader.o, old(StateOf(reader, emitted)), len, old(reader.Here())), old(reader.pos), r,
                   reader.pos, reader.headerRead, reader.expectEof, reader.maxBlock)
  {
    hide ReadUvarint;
    if len > MAX_VARINT_LEN_64 {
      return Err(Corrupt);
    }
    if len > 0 {
      var ok, tmp := reader.ReadExact(len);
      if !ok {
        return Err(Corrupt);
      }
      BodyIs(reader.data, old(reader.pos), len);
      if !reader.o.ignoreStreamId {
        var v := GetUvarint(tmp, 0);
        if v.None? {
          return Err(Corrupt);
        }
        if v.value.1 != len || v.value.0 != emitted {
          return Err(Corrupt);
        }
      }
    }
    reader.expectEof, reader.headerRead := false, false;
    return Ok((None, emitted));
  }

  method DispatchIdentifier(reader: Reader, len: nat, emitted: nat) returns (r: Dispatched)
    requires reader.Valid() && reader.pos >= 4 && reader.headerRead
    modifies reader`pos, reader`maxBlock, reader`expectEof
    ensures reader.Valid() && reader.pos >= old(reader.pos)
    ensures reader.maxBlock == old(reader.maxBlock) || reader.maxBlock <= reader.o.maxBlockUser
    ensures Agrees(reader.o, IdentifierChunk(reader.o, old(StateOf(reader, emitted)), len, old(reader.Here())), old(reader.pos), r,
                   reader.pos, reader.headerRead, reader.expectEof, reader.maxBlock)
  {
    hide BlockSizeFromIndicator;
    if len != MAGIC_BODY_LEN {
      return Err(Corrupt);
    }
    var ok, tmp := reader.ReadExact(MAGIC_BODY_LEN);
    if !ok {
      return Err(Corrupt);
    }
    BodyIs(reader.data, old(reader.pos), len);
    if tmp[..5] != MAGIC_BODY {
      return Err(Unsupported);
    }
    var indicator := tmp[MAGIC_BODY_LEN - 1];
    if indicator >= 0x40 {
      return Err(Corrupt);
    }
    var newMax := BlockSizeFromIndicator(indicator);
    if newMax.None? {
      return Err(Corrupt);
    }
    if newMax.value > reader.o.maxBlockUser {
      return Err(TooLarge);
    }
    reader.maxBlock, reader.expectEof := newMax.value, true;
    return Ok((None, 0));
  }

  lemma BufHoldsBlock(maxBlock: nat, len: nat)
    requires len > MaxBufSize(maxBlock) && maxBlock <= MAX_BLOCK_SIZE
    ensures len - CHECKSUM_SIZE > maxBlock
  {
  }

  method DispatchSkippable(reader: Reader, id: byte, len: nat, emitted: nat) returns (r: Dispatched)
    requires reader.Valid() && reader.pos >= 4 && |reader.Here()| >= 4 && reader.Here()[0] == id && Le24(reader.Here(), 1) == len
    modifies reader`pos, reader`heard
    ensures reader.Valid() && reader.pos >= old(reader.pos)
    ensures reader.heard == old(reader.heard) + (if r.Ok? then HeardNow(reader.o, old(reader.Here())) else [])
    ensures Agrees(reader.o, SkippableChunk(reader.o, StateOf(reader, emitted), id, len, old(reader.Here())), old(reader.pos), r,
                   reader.pos, reader.headerRead, reader.expectEof, reader.maxBlock)
  {
    var skipped := reader.HandleSkippable(id, len);
    return if skipped.Err? then Err(skipped.error) else Ok((None, emitted));
  }

  /** Dispatches the chunk whose header was just read. */
  method DispatchChunk(reader: Reader, kind: byte, len: nat, emitted: nat) returns (r: Dispatched)
    requires reader.Valid() && reader.pos >= 4 && |reader.Here()| >= 4 && reader.Here()[0] == kind && Le24(reader.Here(), 1) == len
    requires (kind == CHUNK_TYPE_STREAM_IDENTIFIER ==> reader.headerRead) && (reader.headerRead || !NeedsHeader(kind))
    requires reader.maxBlock <= reader.o.maxBlockUser <= MAX_BLOCK_SIZE
    modifies reader
    ensures reader.Valid() && reader.data == old(reader.data) && reader.pos >= old(reader.pos)
    ensures reader.maxBlock <= reader.o.maxBlockUser
    ensures reader.heard == old(reader.heard) + (if r.Ok? then HeardNow(reader.o, old(reader.Here())) else [])
    ensures Agrees(reader.o, Chunk(reader.o, old(StateOf(reader, emitted)), old(reader.Here())), old(reader.pos), r,
                   reader.pos, reader.headerRead, reader.expectEof, reader.maxBlock)
  {
    hide Le24, CompressedChunk, UncompressedChunk, EofChunk, IdentifierChunk, SkippableChunk, Agrees;
    ShortData(reader.o, StateOf(reader, emitted), len, reader.Here());
    if (kind == CHUNK_TYPE_COMPRESSED_DATA || kind == CHUNK_TYPE_COMPRESSED_DATA_COMP_CRC) && len >= CHECKSUM_SIZE {
      r := DispatchCompressed(reader, kind == CHUNK_TYPE_COMPRESSED_DATA_COMP_CRC, len, emitted);
    } else if kind == CHUNK_TYPE_UNCOMPRESSED_DATA && len >= CHECKSUM_SIZE {
      r := DispatchUncompressed(reader, len, emitted);
    } else if kind == CHUNK_TYPE_EOF {
      r := DispatchEof(reader, len, emitted);
    } else if kind == CHUNK_TYPE_STREAM_IDENTIFIER {
      r := DispatchIdentifier(reader, len, emitted);
    } else if kind <= MAX_NON_SKIPPABLE_CHUNK {
      r := Err(Unsupported);
      RefusedAgrees(reader.o, Chunk(reader.o, StateOf(reader, emitted), reader.Here()), reader.pos, r, reader.pos,
                    reader.headerRead, reader.expectEof, reader.maxBlock);
    } else {
      r := DispatchSkippable(reader, kind, len, emitted);
    }
  }

  /** Data chunks without room for a checksum fail either way. */
  lemma ShortData(o: Options, st: State, len: nat, s: seq<byte>)
    requires |s| >= 4
    ensures len < CHECKSUM_SIZE ==> CompressedChunk(o, st, true, len, s).Fail? && CompressedChunk(o, st, false, len, s).Fail?
                                    && UncompressedChunk(o, st, len, s).Fail?
  {
  }

  lemma RefusedAgrees(o: Options, step: Step, from: nat, r: Dispatched, pos: nat, headerRead: bool, expectEof: bool, maxBlock: nat)
    requires step.Fail? && r.Err?
    ensures Agrees(o, step, from, r, pos, headerRead, expectEof, maxBlock)
  {
  }

  // -------- dispatching a whole input --------

  ghost predicate AllGood(o: Options, entries: seq<Entry>) { forall e <- entries :: ResultOf(o, e).Ok? }

  /** The decoded bytes of the entries, up to the first failure. */
  ghost function Joint(o: Options, entries: seq<Entry>): seq<byte> {
    if entries == [] then []
    else
      var r := ResultOf(o, entries[|entries| - 1]);
      Joint(o, entries[..|entries| - 1]) + (if r.Ok? then r.value else [])
  }

  /** The single-threaded result `d` of the whole input agrees with the entries dispatched so far and
      the result `rest` of the unread input. */
  ghost predicate Consistent(o: Options, d: Drained, entries: seq<Entry>, rest: Drained) {
    if AllGood(o, entries) then d.bytes == Joint(o, entries) + rest.bytes && d.error == rest.error else d.error.Some?
  }

  lemma OneMoreEntry(o: Options, d: Drained, entries: seq<Entry>, e: Entry, before: Drained, rest: Drained)
    requires Consistent(o, d, entries, before)
    requires var r := ResultOf(o, e);
             if r.Ok? then before.bytes == r.value + rest.bytes && before.error == rest.error else before.error.Some?
    ensures Consistent(o, d, entries + [e], rest)
  {
    hide ResultOf;
    var all := entries + [e];
    assert all[..|entries|] == entries;
    assert e in all;
    if AllGood(o, entries) {
      assert AllGood(o, all) <==> ResultOf(o, e).Ok?;
    } else {
      var x :| x in entries && !ResultOf(o, x).Ok?;
      assert x in all;
    }
  }

  /** One chunk, in terms of what the unread input decodes to. */
  lemma ChunkDrained(o: Options, st: State, s: seq<byte>, from: nat, r: Dispatched,
                     pos: nat, headerRead: bool, expectEof: bool, maxBlock: nat)
    requires |s| >= 4 && Agrees(o, Chunk(o, st, s), from, r, pos, headerRead, expectEof, maxBlock)
    ensures r.Err? ==> Drain(o, st, s).error.Some?
    ensures r.Ok? ==>
              var (entry, emitted) := r.value;
              var result := if entry.Some? then ResultOf(o, entry.value) else Ok([]);
              if result.Err? then Drain(o, st, s).error.Some?
              else
                && 0 <= pos - from + 4 <= |s|
                && var rest := Drain(o, State(headerRead, expectEof, maxBlock, emitted), s[pos - from + 4..]);
                   Drain(o, st, s).bytes == result.value + rest.bytes && Drain(o, st, s).error == rest.error
  {
    hide Chunk, Drain, ResultOf;
    DrainNext(o, st, s);
  }

  /** What the callbacks still hear after one chunk. */
  lemma ChunkHeard(o: Options, st: State, s: seq<byte>, from: nat, r: Dispatched,
                   pos: nat, headerRead: bool, expectEof: bool, maxBlock: nat)
    requires |s| >= 4 && Agrees(o, Chunk(o, st, s), from, r, pos, headerRead, expectEof, maxBlock)
    ensures r.Ok? && (r.value.0.Some? ==> ResultOf(o, r.value.0.value).Ok?) ==>
              && 0 <= pos - from + 4 <= |s|
              && Heard(o, st, s) == HeardNow(o, s) + Heard(o, State(headerRead, expectEof, maxBlock, r.value.1), s[pos - from + 4..])
  {
    hide Chunk, Heard, HeardNow, EndsInHeader, ResultOf;
    Onward(o, st, s);
  }

  lemma GoodParts(o: Options, entries: seq<Entry>, e: Entry)
    ensures AllGood(o, entries + [e]) ==> AllGood(o, entries) && ResultOf(o, e).Ok?
  {
    hide ResultOf;
    assert e in entries + [e] && forall x <- entries :: x in entries + [e];
  }

  /** Where the dispatcher stands with the input `s` unread: the result `d` of the whole input agrees with
      the entries so far, and while they are all good, the callbacks are on their way to `all`. */
  ghost predicate OnTrack(o: Options, d: Drained, all: seq<(byte, seq<byte>)>, entries: seq<Entry>, heard: seq<(byte, seq<byte>)>,
                          st: State, s: seq<byte>)
  {
    Consistent(o, d, entries, Drain(o, st, s)) && (AllGood(o, entries) ==> heard + Heard(o, st, s) == all)
  }

  lemma TrackBegins(o: Options, st: State, s: seq<byte>, heard: seq<(byte, seq<byte>)>)
    ensures OnTrack(o, Drain(o, st, s), heard + Heard(o, st, s), [], heard, st, s)
  {
    hide Drain, Heard, Consistent;
    NoEntries(o, Drain(o, st, s));
  }

  /** One chunk further. */
  lemma TrackOn(o: Options, d: Drained, all: seq<(byte, seq<byte>)>, entries: seq<Entry>, heard: seq<(byte, seq<byte>)>,
                st: State, s: seq<byte>, from: nat, r: Dispatched, pos: nat, headerRead: bool, expectEof: bool, maxBlock: nat,
                rest: seq<byte>)
    requires OnTrack(o, d, all, entries, heard, st, s) && |s| >= 4
    requires Agrees(o, Chunk(o, st, s), from, r, pos, headerRead, expectEof, maxBlock)
    requires 0 <= pos - from + 4 <= |s| ==> rest == s[pos - from + 4..]
    ensures r.Err? ==> d.error.Some?
    ensures r.Ok? ==>
              var (entry, emitted) := r.value;
              OnTrack(o, d, all, if entry.Some? then entries + [entry.value] else entries, heard + HeardNow(o, s),
                      State(headerRead, expectEof, maxBlock, emitted), rest)
  {
    hide Drain, Chunk, Agrees, ResultOf, AllGood, Joint, Consistent, Heard, HeardNow;
    var before := Drain(o, st, s);
    ChunkDrained(o, st, s, from, r, pos, headerRead, expectEof, maxBlock);
    Outcome(o, d, entries, before);
    if r.Ok? {
      ChunkHeard(o, st, s, from, r, pos, headerRead, expectEof, maxBlock);
      var (entry, emitted) := r.value;
      var after := Drain(o, State(headerRead, expectEof, maxBlock, emitted), rest);
      if entry.Some? {
        OneMoreEntry(o, d, entries, entry.value, before, after);
        GoodParts(o, entries, entry.value);
      } else {
        NoNewEntry(o, d, entries, before, after);
      }
    }
  }

  /** Where the track ends. */
  lemma TrackEnds(o: Options, d: Drained, all: seq<(byte, seq<byte>)>, entries: seq<Entry>, heard: seq<(byte, seq<byte>)>,
                  st: State, s: seq<byte>)
    requires OnTrack(o, d, all, entries, heard, st, s)
    ensures Chunk(o, st, s).Fail? ==> d.error.Some?
    ensures Chunk(o, st, s).End? ==>
              && (AllGood(o, entries) <==> d.error.None?)
              && (d.error.None? ==> Joint(o, entries) == d.bytes && heard == all)
  {
    hide Chunk, AllGood, Joint, Consistent, Heard, EndsInHeader;
    DrainNext(o, st, s);
    Onward(o, st, s);
    Outcome(o, d, entries, Drain(o, st, s));
    assert heard + [] == heard;
  }

  /** The dispatch loop: the entries it submits, and its own error if it met one.  Every entry decodes
      and the dispatcher meets no error exactly when reading the input single-threaded ends cleanly,
      and then the entries hold the same bytes and the callbacks have been given the same user chunks. */
  method DispatchLoop(reader: Reader) returns (entries: seq<Entry>, verdict: Option<Error>)
    requires reader.Valid() && reader.maxBlock <= reader.o.maxBlockUser <= MAX_BLOCK_SIZE
    modifies reader
    ensures var d := Drain(reader.o, old(StateOf(reader, 0)), old(reader.data[reader.pos..]));
            && (verdict.None? && AllGood(reader.o, entries) <==> d.error.None?)
            && (d.error.None? ==> Joint(reader.o, entries) == d.bytes)
            && (d.error.None? ==> reader.heard == old(reader.heard + Heard(reader.o, StateOf(reader, 0), reader.data[reader.pos..])))
  {
    hide Drain, Chunk, Agrees, ResultOf, AllGood, Joint, Le24, OnTrack, Heard, HeardNow;
    ghost var o, d := reader.o, Drain(reader.o, StateOf(reader, 0), reader.data[reader.pos..]);
    ghost var all := reader.heard + Heard(reader.o, StateOf(reader, 0), reader.data[reader.pos..]);
    var emitted := 0;
    entries := [];
    TrackBegins(o, StateOf(reader, 0), reader.data[reader.pos..], reader.heard);
    while true
      invariant reader.Valid() && reader.data == old(reader.data)
      invariant reader.maxBlock <= reader.o.maxBlockUser <= MAX_BLOCK_SIZE
      invariant OnTrack(o, d, all, entries, reader.heard, StateOf(reader, emitted), reader.data[reader.pos..])
      decreases |reader.data| - reader.pos
    {
      ghost var st, s, from, heard := StateOf(reader, emitted), reader.data[reader.pos..], reader.pos, reader.heard;
      HeaderCases(o, st, s);
      TrackEnds(o, d, all, entries, heard, st, s);
      var h := reader.ReadChunkHeader();
      if h.Err? {
        return entries, Some(h.error);
      }
      if h.value.None? {
        return entries, None;
      }
      var (kind, len) := h.value.value;
      if !reader.headerRead {
        if kind == CHUNK_TYPE_STREAM_IDENTIFIER {
          reader.headerRead := true;
        } else if kind <= MAX_NON_SKIPPABLE_CHUNK && kind != CHUNK_TYPE_EOF {
          return entries, Some(Corrupt);
        }
      }
      assert reader.Here() == s;
      var r := DispatchChunk(reader, kind, len, emitted);
      ghost var rest := reader.data[reader.pos..];
      assert s[reader.pos - from..] == rest;
      TrackOn(o, d, all, entries, heard, st, s, from + 4, r, reader.pos, reader.headerRead, reader.expectEof, reader.maxBlock, rest);
      if r.Err? {
        return entries, Some(r.error);
      }
      var (entry, counted) := r.value;
      emitted := counted;
      if entry.Some? {
        entries := entries + [entry.value];
      }
    }
  }

  /** How the input as a whole ends, given how the unread input does. */
  lemma Outcome(o: Options, d: Drained, entries: seq<Entry>, rest: Drained)
    requires Consistent(o, d, entries, rest)
    ensures rest.error.Some? ==> d.error.Some?
    ensures rest.error.None? && rest.bytes == [] ==>
              (AllGood(o, entries) <==> d.error.None?) && (d.error.None? ==> Joint(o, entries) == d.bytes)
  {
    hide AllGood, Joint;
    if rest.bytes == [] {
      assert Joint(o, entries) + [] == Joint(o, entries);
    }
  }

  lemma NoNewEntry(o: Options, d: Drained, entries: seq<Entry>, before: Drained, rest: Drained)
    requires Consistent(o, d, entries, before) && before.bytes == [] + rest.bytes && before.error == rest.error
    ensures Consistent(o, d, entries, rest)
  {
    assert [] + rest.bytes == rest.bytes;
  }

  lemma NoEntries(o: Options, d: Drained)
    ensures AllGood(o, []) && Consistent(o, d, [], d)
  {
    assert [] + d.bytes == d.bytes;
  }

  // -------- the writer thread and the whole decode --------

  /** The bytes of good results in a row. */
  function Concat(results: seq<Decoded>): seq<byte> {
    if results == [] then []
    else
      var r := results[|results| - 1];
      Concat(results[..|results| - 1]) + (if r.Ok? then r.value else [])
  }

  /** The writer thread: writes the results in order and counts their bytes, up to the first failure. */
  method WriterLoop(received: seq<Decoded>) returns (sink: seq<byte>, written: nat, error: Option<Error>)
    ensures error.None? <==> forall r <- received :: r.Ok?
    ensures error.None? ==> sink == Concat(received) && written == |sink|
    ensures error.Some? ==> exists k :: 0 <= k < |received| && received[k] == Err(error.value) && sink == Concat(received[..k])
  {
    sink, written := [], 0;
    for i := 0 to |received|
      invariant sink == Concat(received[..i]) && written == |sink|
      invariant forall k :: 0 <= k < i ==> received[k].Ok?
    {
      if received[i].Err? {
        assert received[i] in received;
        return sink, written, Some(received[i].error);
      }
      assert received[..i + 1][..i] == received[..i];
      sink := sink + received[i].value;
      written := written + |received[i].value|;
    }
    assert received[..|received|] == received;
    return sink, written, None;
  }

  ghost function System(workers: nat, o: Options, entries: seq<Entry>, sinkMayFail: bool): P.System<DecodeJob, Decoded> {
    P.System(workers, entries, (j: DecodeJob) => Work(o, j), (r: Decoded) => r.Err?, sinkMayFail)
  }

  lemma {:induction false} ResultsJoin(workers: nat, o: Options, entries: seq<Entry>, sinkMayFail: bool)
    ensures var sys := System(workers, o, entries, sinkMayFail);
            && Concat(P.Results(sys)) == Joint(o, entries)
            && ((forall r <- P.Results(sys) :: !sys.bad(r)) <==> AllGood(o, entries))
    decreases |entries|
  {
    hide Work;
    var sys := System(workers, o, entries, sinkMayFail);
    SameResults(workers, o, entries, sinkMayFail);
    if entries != [] {
      var n := |entries| - 1;
      ResultsJoin(workers, o, entries[..n], sinkMayFail);
      SameResults(workers, o, entries[..n], sinkMayFail);
      assert P.Results(sys)[..n] == P.Results(System(workers, o, entries[..n], sinkMayFail));
    }
  }

  lemma SameResults(workers: nat, o: Options, entries: seq<Entry>, sinkMayFail: bool)
    ensures var results := P.Results(System(workers, o, entries, sinkMayFail));
            && |results| == |entries| && (forall k :: 0 <= k < |entries| ==> results[k] == ResultOf(o, entries[k]))
            && ((forall r <- results :: r.Ok?) <==> AllGood(o, entries))
  {
    hide Work;
    var results := P.Results(System(workers, o, entries, sinkMayFail));
    assert forall k :: 0 <= k < |entries| ==> results[k] == ResultOf(o, entries[k]);
    assert forall k :: 0 <= k < |entries| ==> entries[k] in entries && results[k] in results;
  }

  /** For every interleaving: the concurrent decode returns success exactly when reading to the end
      single-threaded does, and then it has written the same bytes.  `entries` and `verdict` are what
      the dispatch loop ensures of the input. */
  lemma ConcurrentMatchesSequential(o: Options, d: Drained, entries: seq<Entry>, verdict: Option<Error>, workers: nat,
                                    run: seq<P.State<Decoded>>)
    requires workers >= 1
    requires verdict.None? && AllGood(o, entries) <==> d.error.None?
    requires d.error.None? ==> Joint(o, entries) == d.bytes
    requires P.Run(System(workers, o, entries, false), run) && P.Terminal(run[|run| - 1])
    ensures var last := run[|run| - 1];
            && (verdict.None? && P.Succeeded(last) <==> d.error.None?)
            && (d.error.None? ==> Concat(last.written) == d.bytes)
  {
    hide P.Step, P.Terminal, AllGood, Joint, Concat;
    var sys := System(workers, o, entries, false);
    ResultsJoin(workers, o, entries, false);
    P.WrittenInOrder(sys, run);
    P.EndedRun(sys, run);
  }
}
