/** The single-threaded reader: it decodes chunk by chunk into a buffer and hands the buffer out.
    The source is the sequence `data` with a position. */
module StreamReader {
  import opened Bytes
  import opened StreamFormat
  import Block
  import Crc

  // -------- facts about draining --------

  lemma DrainNext(o: Options, st: State, s: seq<byte>)
    ensures var c := Chunk(o, st, s);
            Drain(o, st, s) ==
            if c.Next? then Prepend(c.payload, Joined(st, s, Drain(o, c.state, s[c.length..])))
            else Drained([], if c.End? then None else Some(c.error), c.End? || !Restarts(st, s), st.maxBlock)
  {
  }

  /** The offset the next chunk starts at: a stream identifier starts over at zero. */
  function StartOffset(st: State, s: seq<byte>): nat {
    if s != [] && s[0] == CHUNK_TYPE_STREAM_IDENTIFIER then 0 else st.consumed
  }

  /** Which offset a stream identifier is met at does not change what follows it. */
  lemma StartOver(o: Options, st: State, s: seq<byte>)
    ensures var st0 := st.(consumed := StartOffset(st, s));
            && Chunk(o, st0, s) == Chunk(o, st, s)
            && Drain(o, st0, s).bytes == Drain(o, st, s).bytes && Drain(o, st0, s).error == Drain(o, st, s).error
            && (Drain(o, st, s).seamless ==> Drain(o, st0, s).seamless) && Drain(o, st0, s).room == Drain(o, st, s).room
  {
  }

  /** A chunk other than a stream identifier moves the offset by what it decodes to, and a stream
      identifier at offset zero leaves it there. */
  lemma OffsetMoves(o: Options, st: State, s: seq<byte>)
    ensures var c := Chunk(o, st, s);
            c.Next? && (s[0] != CHUNK_TYPE_STREAM_IDENTIFIER || st.consumed == 0) ==> c.state.consumed == st.consumed + |c.payload|
    ensures var c := Chunk(o, st, s); c.Next? && c.payload != [] ==> c.state.headerRead && s[0] != CHUNK_TYPE_STREAM_IDENTIFIER
    ensures var c := Chunk(o, st, s); c.Next? && s[0] == CHUNK_TYPE_STREAM_IDENTIFIER ==> c.state.consumed == 0
  {
  }

  class Reader {
    const o: Options
    var data: seq<byte>
    var pos: nat
    /** The decoded block, and the read position in it. */
    var decoded: seq<byte>
    var decodedPos: nat
    /** The uncompressed offset of `decoded` in its stream. */
    var blockStart: nat
    var maxBlock: nat
    var headerRead: bool
    var expectEof: bool
    /** Once set, every read returns it. */
    var err: Option<Error>
    /** The user chunks handed to callbacks so far. */
    var heard: seq<(byte, seq<byte>)>

    ghost predicate Valid()
      reads this
    {
      pos <= |data| && decodedPos <= |decoded| && ValidOptions(o) && maxBlock <= o.maxBlockUser
    }

    /** The chunk-level state at the source position. */
    ghost function Frontier(): State
      reads this
    {
      State(headerRead, expectEof, maxBlock, blockStart + |decoded|)
    }

    /** What the chunks not yet read decode to. */
    ghost function Ahead(): Drained
      reads this
      requires Valid()
    {
      Drain(o, Frontier(), data[pos..])
    }

    /** What reads will still deliver, and how it ends. */
    ghost function Remaining(): Drained
      reads this
      requires Valid()
    {
      Prepend(decoded[decodedPos..], Ahead())
    }

    /** What the callbacks have been given and will be given. */
    ghost function Hearing(): seq<(byte, seq<byte>)>
      reads this`data, this`pos, this`headerRead, this`expectEof, this`maxBlock, this`blockStart, this`decoded, this`heard
      requires pos <= |data|
    {
      heard + Heard(o, State(headerRead, expectEof, maxBlock, blockStart + |decoded|), data[pos..])
    }

    /** Whether the input breaks off in the middle of a chunk header. */
    ghost predicate BreaksOff()
      reads this`data, this`pos, this`headerRead, this`expectEof, this`maxBlock, this`blockStart, this`decoded
      requires pos <= |data|
    {
      EndsInHeader(o, State(headerRead, expectEof, maxBlock, blockStart + |decoded|), data[pos..])
    }

    constructor (o: Options, data: seq<byte>)
      requires ValidOptions(o)
      ensures Valid() && err == None && pos == 0 && this.data == data && this.o == o && decoded == [] && heard == []
      ensures Frontier() == Initial(o)
      ensures Remaining().bytes == Drain(o, Initial(o), data).bytes && Remaining().error == Drain(o, Initial(o), data).error
    {
      this.o, this.data, pos := o, data, 0;
      decoded, decodedPos, blockStart, maxBlock := [], 0, 0, o.maxBlockUser;
      headerRead, expectEof, err, heard := o.ignoreStreamId, false, None, [];
      new;
      assert data[0..] == data;
      assert [] + Ahead().bytes == Ahead().bytes;
    }

    /** The offset of the next byte a read returns. */
    function CurrentOffset(): nat
      reads this
    {
      blockStart + decodedPos
    }

    // -------- the source --------

    /** `read_exact`: all of the next `n` bytes, or nothing but the end of the input. */
    method ReadExact(n: nat) returns (ok: bool, b: seq<byte>)
      requires Valid()
      modifies `pos
      ensures Valid() && ok == (old(pos) + n <= |data|)
      ensures ok ==> pos == old(pos) + n && b == data[old(pos)..pos]
      ensures !ok ==> pos == |data|
    {
      if |data| - pos < n {
        pos := |data|;
        return false, [];
      }
      b := data[pos..pos + n];
      pos := pos + n;
      ok := true;
    }

    /** Discards `n` bytes in pieces of at most 4096. */
    method SkipN(n: nat) returns (r: Result<(), Error>)
      requires Valid()
      modifies `pos
      ensures Valid() && r == if old(pos) + n <= |data| then Ok(()) else Err(Corrupt)
      ensures pos == if r.Ok? then old(pos) + n else |data|
    {
      var left := n;
      while left > 0
        invariant Valid() && 0 <= left <= n && pos == old(pos) + (n - left)
      {
        var take := if left <= 4096 then left else 4096;
        var ok, _ := ReadExact(take);
        if !ok {
          return Err(Corrupt);
        }
        left := left - take;
      }
      return Ok(());
    }

    // -------- chunk handlers, each called with the chunk header just read --------

    /** The unread input including the chunk header just read. */
    ghost function Here(): seq<byte>
      reads this
      requires Valid() && pos >= 4
    {
      data[pos - 4..]
    }

    /** Verifies and decodes the chunk body that was read into `buf`. */
    method DecodeChecked(comp: bool, buf: seq<byte>) returns (r: Result<seq<byte>, Error>)
      requires |buf| >= CHECKSUM_SIZE
      ensures r == DecodeCompressed(o, comp, buf, maxBlock)
    {
      hide Block.SplitChunkBody, Block.DecodeChunkBody, Crc.Checksum, Le32;
      var checksum := Le32(buf, 0);
      var body := buf[CHECKSUM_SIZE..];
      var split := Block.SplitChunkBody(body);
      if split.Err? {
        return Err(InBlock(split.error));
      }
      if split.value.0 > maxBlock {
        return Err(TooLarge);
      }
      var d := Block.AppendDecodedChunkBody([], body);
      if d.Err? {
        return Err(InBlock(d.error));
      }
      assert forall x: seq<byte> :: [] + x == x;
      if !o.ignoreCrc {
        if Crc.Checksum(if comp then split.value.1 else d.value) != checksum {
          return Err(Crc);
        }
      }
      return Ok(d.value);
    }

    method HandleCompressedChunk(comp: bool, len: nat) returns (r: Result<(), Error>)
      requires Valid() && pos >= 4
      modifies `pos, `decoded, `decodedPos, `blockStart
      ensures Valid() && Followed(old(Here()), old(pos), CompressedChunk(o, old(Frontier()), comp, len, old(Here())), r)
      ensures r.Ok? ==> decodedPos == 0 && blockStart == old(blockStart) + old(|decoded|)
      ensures r.Ok? ==> decoded == CompressedChunk(o, old(Frontier()), comp, len, old(Here())).payload
    {
      hide DecodeCompressed;
      ghost var s := Here();
      if len < CHECKSUM_SIZE {
        return Err(Corrupt);
      }
      blockStart := blockStart + |decoded|;
      if len > MaxBufSize(maxBlock) {
        return Err(Corrupt);
      }
      var ok, buf := ReadExact(len);
      if !ok {
        return Err(Corrupt);
      }
      BodyIs(data, old(pos), len);
      var d := DecodeChecked(comp, buf);
      if d.Err? {
        return Err(d.error);
      }
      decoded, decodedPos := d.value, 0;
      return Ok(());
    }

    /** The handler did what the chunk means: the same error, or the same state and position. */
    ghost predicate Followed(s: seq<byte>, from: nat, step: Step, r: Result<(), Error>)
      reads this
      requires Valid()
    {
      if step.Next? then r == Ok(()) && pos == from - 4 + step.length && Frontier() == step.state
      else step.Fail? && r == Err(step.error)
    }

    method HandleUncompressedChunk(len: nat) returns (r: Result<(), Error>)
      requires Valid() && pos >= 4
      modifies `pos, `decoded, `decodedPos, `blockStart
      ensures Valid() && Followed(old(Here()), old(pos), UncompressedChunk(o, old(Frontier()), len, old(Here())), r)
      ensures r.Ok? ==> decodedPos == 0 && blockStart == old(blockStart) + old(|decoded|)
      ensures r.Ok? ==> decoded == UncompressedChunk(o, old(Frontier()), len, old(Here())).payload
    {
      hide Crc.Checksum, Le32;
      ghost var s := Here();
      BodyParts(data, pos, len);
      if len < CHECKSUM_SIZE {
        return Err(Corrupt);
      }
      blockStart := blockStart + |decoded|;
      var n := len - CHECKSUM_SIZE;
      if n > maxBlock {
        return Err(TooLarge);
      }
      var ok, buf := ReadExact(CHECKSUM_SIZE);
      if !ok {
        return Err(Corrupt);
      }
      var checksum := Le32(buf, 0);
      ok, buf := ReadExact(n);
      if !ok {
        return Err(Corrupt);
      }
      if !o.ignoreCrc && Crc.Checksum(buf) != checksum {
        return Err(Crc);
      }
      decoded, decodedPos := buf, 0;
      return Ok(());
    }

    method HandleEofChunk(len: nat) returns (r: Result<(), Error>)
      requires Valid() && pos >= 4
      modifies `pos, `expectEof, `headerRead
      ensures Valid() && Followed(old(Here()), old(pos), EofChunk(o, old(Frontier()), len, old(Here())), r)
    {
      hide ReadUvarint;
      ghost var s := Here();
      if len > MAX_VARINT_LEN_64 {
        return Err(Corrupt);
      }
      if len != 0 {
        var ok, tmp := ReadExact(len);
        if !ok {
          return Err(Corrupt);
        }
        BodyIs(data, old(pos), len);
        if !o.ignoreStreamId {
          var v := GetUvarint(tmp, 0);
          if v.None? {
            return Err(Corrupt);
          }
          if v.value.1 != len {
            return Err(Corrupt);
          }
          if v.value.0 != blockStart + |decoded| {
            return Err(Corrupt);
          }
        }
      }
      expectEof, headerRead := false, false;
      return Ok(());
    }

    method HandleStreamIdentifier(len: nat) returns (r: Result<(), Error>)
      requires Valid() && pos >= 4 && headerRead
      modifies `pos, `maxBlock, `blockStart, `decoded, `decodedPos, `expectEof
      ensures Valid() && Followed(old(Here()), old(pos), IdentifierChunk(o, old(Frontier()), len, old(Here())), r)
      ensures r.Ok? ==> decoded == [] && decodedPos == 0 && blockStart == 0
    {
      hide BlockSizeFromIndicator;
      ghost var s := Here();
      if len != MAGIC_BODY_LEN {
        return Err(Corrupt);
      }
      var ok, tmp := ReadExact(MAGIC_BODY_LEN);
      if !ok {
        return Err(Corrupt);
      }
      BodyIs(data, old(pos), len);
      if tmp[..5] != MAGIC_BODY {
        return Err(Unsupported);
      }
      var indicator := tmp[MAGIC_BODY_LEN - 1];
      if indicator >= 0x40 {
        return Err(Corrupt);
      }
      var newMax := BlockSizeFromIndicator(indicator);
      if newMax.None? {
        return Err(Corrupt);
      }
      if newMax.value > o.maxBlockUser {
        return Err(TooLarge);
      }
      maxBlock, blockStart, decoded, decodedPos, expectEof := newMax.value, 0, [], 0, true;
      return Ok(());
    }

    /** Padding, reserved and user chunks.  A registered callback is given the body, and is taken to
        accept it. */
    method HandleSkippable(id: byte, len: nat) returns (r: Result<(), Error>)
      requires Valid() && pos >= 4 && |Here()| >= 4 && Here()[0] == id && Le24(Here(), 1) == len
      modifies `pos, `heard
      ensures heard == old(heard) + (if r.Ok? then HeardNow(o, old(Here())) else [])
      ensures Valid() && Followed(old(Here()), old(pos), SkippableChunk(o, old(Frontier()), id, len, old(Here())), r)
      ensures pos >= old(pos)
    {
      hide Le24;
      ghost var s := Here();
      if MIN_USER_SKIPPABLE_CHUNK <= id <= MAX_USER_NON_SKIPPABLE_CHUNK {
        if id in o.callbacks {
          var ok, body := ReadExact(len);
          if !ok {
            return Err(Corrupt);
          }
          BodyIs(data, old(pos), len);
          heard := heard + [(id, body)];
          return Ok(());
        }
        if MIN_USER_NON_SKIPPABLE_CHUNK <= id <= MAX_USER_NON_SKIPPABLE_CHUNK {
          return Err(Corrupt);
        }
      }
      r := SkipN(len);
    }

    // -------- reading --------

    /** The four bytes of the next chunk header; `None` is a clean end of the input. */
    method ReadChunkHeader() returns (r: Result<Option<(byte, nat)>, Error>)
      requires Valid()
      modifies `pos
      ensures Valid()
      ensures var s := data[old(pos)..];
              if |s| >= CHUNK_HEADER_SIZE then r == Ok(Some((s[0], Le24(s, 1)))) && pos == old(pos) + 4
              else if s == [] && !expectEof then r == Ok(None) && pos == old(pos)
              else r == Err(Corrupt) && pos == |data|
    {
      if pos == |data| && !expectEof {
        return Ok(None);
      }
      var ok, hdr := ReadExact(CHUNK_HEADER_SIZE);
      if !ok {
        return Err(Corrupt);
      }
      return Ok(Some((hdr[0], Le24(hdr, 1))));
    }

    /** Dispatches on the type of the chunk whose header was just read. */
    method Dispatch(kind: byte, len: nat) returns (r: Result<(), Error>)
      requires Valid() && pos >= 4 && |Here()| >= 4 && Here()[0] == kind && Le24(Here(), 1) == len
      requires decodedPos == |decoded| && (kind == CHUNK_TYPE_STREAM_IDENTIFIER ==> headerRead)
      requires headerRead || !NeedsHeader(kind)
      modifies this
      ensures Valid() && data == old(data) && err == old(err)
      ensures var step := Chunk(o, old(Frontier()), old(Here()));
              && Followed(old(Here()), old(pos), step, r)
              && (step.Next? ==> decoded[decodedPos..] == step.payload)
              && (step.Next? && step.payload != [] ==> decodedPos == 0 && blockStart == old(blockStart + |decoded|))
              && (step.Next? && step.payload == [] ==> decoded == old(decoded) || decoded == [])
              && heard == old(heard) + (if step.Next? then HeardNow(o, old(Here())) else [])
    {
      hide Le24, CompressedChunk, UncompressedChunk, EofChunk, IdentifierChunk, SkippableChunk;
      HandlerFacts(o, Frontier(), len, Here());
      if kind == CHUNK_TYPE_COMPRESSED_DATA || kind == CHUNK_TYPE_COMPRESSED_DATA_COMP_CRC {
        r := HandleCompressedChunk(kind == CHUNK_TYPE_COMPRESSED_DATA_COMP_CRC, len);
      } else if kind == CHUNK_TYPE_UNCOMPRESSED_DATA {
        r := HandleUncompressedChunk(len);
      } else if kind == CHUNK_TYPE_EOF {
        r := HandleEofChunk(len);
      } else if kind == CHUNK_TYPE_STREAM_IDENTIFIER {
        r := HandleStreamIdentifier(len);
      } else if kind <= MAX_NON_SKIPPABLE_CHUNK {
        r := Err(Unsupported);
      } else {
        r := HandleSkippable(kind, len);
      }
    }

    lemma FollowedMeans(s: seq<byte>, from: nat, step: Step, r: Result<(), Error>)
      requires Valid() && Followed(s, from, step, r)
      ensures !step.End? && (r.Err? <==> step.Fail?) && (r.Err? ==> r.error == step.error)
      ensures step.Next? ==> r == Ok(()) && pos == from - 4 + step.length && Frontier() == step.state
    {
    }

    /** One round of the reading loop: the next chunk, whatever it is; `false` is a clean end. */
    method NextChunk() returns (r: Result<bool, Error>)
      requires Valid() && decodedPos == |decoded| && err.None?
      modifies this
      ensures Valid() && data == old(data) && (r.Ok? ==> err.None?)
      ensures var s, st := data[old(pos)..], old(Frontier());
              var step := Chunk(o, st, s);
              && (r == Ok(false) <==> step.End?) && (r.Err? <==> step.Fail?) && (r.Err? ==> r.error == step.error)
              && (step.End? ==> Frontier() == st && pos == old(pos) && decoded == old(decoded) && decodedPos == old(decodedPos))
              && (step.Next? ==> Frontier() == step.state && pos == old(pos) + step.length
                                 && decoded[decodedPos..] == step.payload)
              && (step.Next? && step.payload != [] ==> decodedPos == 0 && blockStart == st.consumed)
              && (step.Next? && step.payload == [] ==> decoded == old(decoded) || decoded == [])
              && heard == old(heard) + (if step.Next? then HeardNow(o, s) else [])
              && (step.Fail? ==> err == if |s| < CHUNK_HEADER_SIZE then None else Some(step.error))
              && (r.Err? && err.None? ==> pos == |data| && decodedPos == |decoded| && expectEof == old(expectEof))
    {
      hide Le24, Chunk, Followed, HeardNow;
      ghost var s, st := data[pos..], Frontier();
      HeaderCases(o, st, s);
      var h := ReadChunkHeader();
      if h.Err? {
        return Err(h.error);
      }
      if h.value.None? {
        return Ok(false);
      }
      var (kind, len) := h.value.value;
      if !headerRead {
        if kind == CHUNK_TYPE_STREAM_IDENTIFIER {
          headerRead := true;
        } else if kind <= MAX_NON_SKIPPABLE_CHUNK && kind != CHUNK_TYPE_EOF {
          err := Some(Corrupt);
          return Err(Corrupt);
        }
      }
      assert Here() == s;
      var d := Dispatch(kind, len);
      FollowedMeans(s, old(pos) + 4, Chunk(o, st, s), d);
      if d.Err? {
        err := Some(d.error);
        return Err(d.error);
      }
      return Ok(true);
    }

    ghost function Base(): State
      reads this
      requires Valid()
    {
      Frontier().(consumed := StartOffset(Frontier(), data[pos..]))
    }

    /** Reads chunks until there is something to hand out; `false` is a clean end.  What comes is
        exactly what the unread chunks decode to, and offsets run on. */
    method FillDecoded() returns (r: Result<bool, Error>)
      requires Valid() && err.None?
      modifies this
      ensures Valid() && data == old(data) && (r.Ok? ==> err.None?)
      ensures old(decodedPos < |decoded|) ==>
                r == Ok(true) && pos == old(pos) && Frontier() == old(Frontier()) && decoded == old(decoded) && decodedPos == old(decodedPos)
      ensures old(decodedPos == |decoded|) ==>
                var d := Drain(o, old(Base()), old(data[pos..]));
                && (r == Ok(true) <==> d.bytes != []) && (r.Err? <==> d.bytes == [] && d.error.Some?)
                && (r.Err? ==> d.error == Some(r.error))
                && (r.Ok? ==> Ahead().error == d.error && decoded[decodedPos..] + Ahead().bytes == d.bytes)
                && (r == Ok(true) ==> decodedPos == 0 && decoded != [] && headerRead)
                && (r == Ok(false) ==> decodedPos == |decoded| && pos == |data| && (decoded == old(decoded) || decoded == []))
                && (r.Ok? && d.seamless ==>
                      Ahead().seamless && blockStart + decodedPos == old(Base()).consumed)
                && (r.Ok? ==> Ahead().room >= d.room)
      ensures if r.Ok? then Hearing() == old(Hearing()) && BreaksOff() == old(BreaksOff())
              else heard == old(Hearing()) && err == if old(BreaksOff()) then None else Some(r.error)
      ensures r == Ok(false) ==> heard == Hearing()
      ensures r.Err? && err.None? ==>
                pos == |data| && decodedPos == |decoded| && (old(|data| - pos) < CHUNK_HEADER_SIZE ==> expectEof == old(expectEof))
    {
      hide Chunk, Drain, StartOffset, Heard, HeardNow, EndsInHeader;
      if decodedPos < |decoded| {
        return Ok(true);
      }
      ghost var d, base := Drain(o, Base(), data[pos..]), Base().consumed;
      while true
        invariant Valid() && err.None? && data == old(data) && decodedPos == |decoded|
        invariant decoded == old(decoded) || decoded == []
        invariant Drain(o, Base(), data[pos..]).bytes == d.bytes && Drain(o, Base(), data[pos..]).error == d.error
        invariant Drain(o, Base(), data[pos..]).room >= d.room
        invariant d.seamless ==> Drain(o, Base(), data[pos..]).seamless && Base().consumed == base
        invariant Hearing() == old(Hearing()) && BreaksOff() == old(BreaksOff())
        invariant old(|data| - pos) < CHUNK_HEADER_SIZE ==> pos == old(pos) && expectEof == old(expectEof)
        decreases |data| - pos
      {
        ghost var before, s := Frontier(), data[pos..];
        Onward(o, before, s);
        Restart(o, before, s);
        SameStart(o, before, s);
        assert Drain(o, Base(), s) == Drain(o, before.(consumed := StartOffset(before, s)), s);
        r := NextChunk();
        assert r.Ok? ==> r == Ok(r.value);
        if r.Err? || !r.value {
          return;
        }
        ghost var c := Chunk(o, before, s);
        assert s[c.length..] == data[pos..];
        assert Ahead() == Drain(o, c.state, s[c.length..]);
        assert decoded[decodedPos..] == c.payload;
        StartOver(o, Frontier(), data[pos..]);
        SameStart(o, Frontier(), data[pos..]);
        if decodedPos < |decoded| {
          return;
        }
      }
    }

    /** The reader is somewhere in a stream with content `p`, the buffer and everything ahead are where
        they belong in it, and blocks of up to `room` bytes are within its limit. */
    ghost predicate Tracks(p: seq<byte>, room: nat)
      reads this
    {
      Valid() && err.None? && Placed(p, room, blockStart, decoded, Ahead()) && (!headerRead ==> decodedPos == |decoded|)
    }

    /** The reader, with its buffer used up, is at the identifier of a stream with content `p`. */
    ghost predicate Opening(p: seq<byte>, room: nat)
      reads this
    {
      && Valid() && err.None? && decodedPos == |decoded|
      && pos < |data| && data[pos] == CHUNK_TYPE_STREAM_IDENTIFIER
      && Placed(p, room, 0, [], Drain(o, Frontier().(consumed := 0), data[pos..]))
    }

    /** Filling the buffer does not move the read position, except that opening a stream starts at
        its offset zero. */
    method Fill() returns (r: Result<bool, Error>)
      requires Valid() && err.None?
      modifies this
      ensures Valid() && data == old(data) && (r.Ok? ==> err.None?)
      ensures var d := old(Remaining());
              && (r == Ok(true) <==> d.bytes != []) && (r == Ok(false) <==> d.bytes == [] && d.error.None?)
              && (r.Err? ==> d.error == Some(r.error))
              && (r.Ok? ==> Remaining().bytes == d.bytes && Remaining().error == d.error)
      ensures (r == Ok(true) ==> decodedPos < |decoded|) && (r == Ok(false) ==> decodedPos == |decoded|)
      ensures forall p, room :: old(Tracks(p, room)) ==> Tracks(p, room) && CurrentOffset() == old(CurrentOffset())
      ensures forall p, room :: old(Opening(p, room)) ==>
                r.Ok? && Tracks(p, room) && CurrentOffset() == 0 && (p != [] ==> headerRead)
      ensures if r.Ok? then Hearing() == old(Hearing()) && BreaksOff() == old(BreaksOff())
              else heard == old(Hearing()) && err == if old(BreaksOff()) then None else Some(r.error)
      ensures r == Ok(false) ==> heard == Hearing()
      ensures r.Err? && err.None? ==>
                pos == |data| && decodedPos == |decoded| && (old(|data| - pos) < CHUNK_HEADER_SIZE ==> expectEof == old(expectEof))
    {
      hide Drain, Chunk, StartOffset, Placed, Restarts, Hearing, BreaksOff;
      ghost var st, s := Frontier(), data[pos..];
      ghost var from, was, start, ahead := decodedPos, decoded, blockStart, Ahead();
      StartOver(o, st, s);
      SameStart(o, st, s);
      assert |Remaining().bytes| >= |was| - from;
      assert from == |was| ==> was[from..] + ahead.bytes == ahead.bytes;
      r := FillDecoded();
      assert r.Ok? ==> r == if r.value then Ok(true) else Ok(false);
      forall p, room | old(Tracks(p, room)) ensures Tracks(p, room) && CurrentOffset() == old(CurrentOffset()) {
        PlacedClean(p, room, start, was, ahead);
        if from == |was| {
          PlacedMoves(p, room, start, was, ahead, blockStart, decoded, decodedPos, Ahead());
        }
      }
      forall p, room | old(Opening(p, room))
        ensures r.Ok? && Tracks(p, room) && CurrentOffset() == 0 && (p != [] ==> headerRead)
      {
        PlacedOpens(p, room, o, st, s, blockStart, decoded, decodedPos, Ahead(), r.Ok?);
      }
    }

    /** `read` with room for `n` bytes: the next bytes, none at a clean end, or the error. */
    method Read(n: nat) returns (r: Result<seq<byte>, Error>)
      requires Valid()
      modifies this
      ensures Valid() && data == old(data)
      ensures old(err).Some? ==> r == Err(old(err).value) && err == old(err)
      ensures old(err).None? && n == 0 ==> r == Ok([]) && Remaining() == old(Remaining()) && err.None?
      ensures old(err).None? && n > 0 ==>
                var d := old(Remaining());
                && (r.Err? <==> d.bytes == [] && d.error.Some?) && (r.Err? ==> Some(r.error) == d.error)
                && (r.Ok? ==> err.None? && |r.value| <= n && (r.value == [] <==> d.bytes == [])
                              && d.bytes == r.value + Remaining().bytes && Remaining().error == d.error)
      ensures forall p, room :: old(Tracks(p, room)) ==>
                r.Ok? && Tracks(p, room) && CurrentOffset() == old(CurrentOffset()) + |r.value|
                && r.value == p[old(CurrentOffset())..CurrentOffset()]
      ensures old(err).None? ==>
                if r.Ok? then Hearing() == old(Hearing()) && BreaksOff() == old(BreaksOff())
                              && (r.value == [] && n > 0 ==> heard == Hearing())
                else heard == old(Hearing()) && err == if old(BreaksOff()) then None else Some(r.error)
      ensures r.Err? && err.None? ==>
                pos == |data| && decodedPos == |decoded| && (old(|data| - pos) < CHUNK_HEADER_SIZE ==> expectEof == old(expectEof))
    {
      hide Drain, Hearing, BreaksOff;
      if err.Some? {
        return Err(err.value);
      }
      if n == 0 {
        return Ok([]);
      }
      var filled := Fill();
      assert filled.Ok? ==> filled == Ok(filled.value);
      if filled.Err? {
        return Err(filled.error);
      }
      if !filled.value {
        return Ok([]);
      }
      var out := Take(n);
      return Ok(out);
    }

    /** Hands out up to `n` buffered bytes. */
    method Take(n: nat) returns (out: seq<byte>)
      requires Valid() && err.None? && decodedPos < |decoded| && n > 0
      modifies `decodedPos
      ensures Valid() && 0 < |out| <= n
      ensures old(Remaining()).bytes == out + Remaining().bytes && Remaining().error == old(Remaining()).error
      ensures forall p, room :: old(Tracks(p, room)) ==>
                Tracks(p, room) && CurrentOffset() == old(CurrentOffset()) + |out|
                && out == p[old(CurrentOffset())..CurrentOffset()]
    {
      hide Drain, Placed;
      var k := if |decoded| - decodedPos <= n then |decoded| - decodedPos else n;
      ghost var from := decodedPos;
      out := decoded[decodedPos..decodedPos + k];
      decodedPos := decodedPos + k;
      SplitBytes(decoded, from, decodedPos, Ahead().bytes);
      forall p, room | old(Tracks(p, room))
        ensures CurrentOffset() <= |p| && out == p[old(CurrentOffset())..CurrentOffset()]
      {
        PlacedSlice(p, room, blockStart, decoded, Ahead(), from, decodedPos);
      }
    }

    /** `fill_buf`: everything decoded and not yet read. */
    method FillBuf() returns (r: Result<seq<byte>, Error>)
      requires Valid()
      modifies this
      ensures Valid() && data == old(data) && (r.Ok? ==> err.None?)
      ensures old(err).Some? ==> r == Err(old(err).value) && err == old(err)
      ensures old(err).None? ==>
                var d := old(Remaining());
                && (r.Err? <==> d.bytes == [] && d.error.Some?) && (r.Err? ==> Some(r.error) == d.error)
                && (r.Ok? ==> r.value == decoded[decodedPos..] && r.value <= d.bytes && (r.value == [] <==> d.bytes == [])
                              && Remaining().bytes == d.bytes && Remaining().error == d.error)
      ensures forall p, room :: old(Opening(p, room)) ==>
                r.Ok? && Tracks(p, room) && CurrentOffset() == 0 && (p != [] ==> headerRead)
    {
      hide Drain;
      if err.Some? {
        return Err(err.value);
      }
      var filled := Fill();
      assert filled.Ok? ==> filled == Ok(filled.value);
      if filled.Err? {
        return Err(filled.error);
      }
      if !filled.value {
        return Ok([]);
      }
      return Ok(decoded[decodedPos..]);
    }

    /** `consume`: moves past at most what is buffered. */
    method Consume(amount: nat)
      requires Valid()
      modifies `decodedPos
      ensures Valid()
      ensures decodedPos == if amount <= |decoded| - old(decodedPos) then old(decodedPos) + amount else |decoded|
    {
      var available := |decoded| - decodedPos;
      decodedPos := decodedPos + (if amount <= available then amount else available);
    }

    /** Reads to the end with reads of any size: the whole content, or the error that ends it. */
    method ReadToEnd(n: nat) returns (bytes: seq<byte>, error: Option<Error>)
      requires Valid() && err.None? && n > 0
      modifies this
      ensures Valid() && bytes == old(Remaining()).bytes && error == old(Remaining()).error
      ensures heard == old(Hearing()) && err == if old(BreaksOff()) then None else error
    {
      hide Drain, Hearing, BreaksOff;
      bytes := [];
      while true
        invariant Valid() && err.None? && data == old(data)
        invariant bytes + Remaining().bytes == old(Remaining()).bytes && Remaining().error == old(Remaining()).error
        invariant Hearing() == old(Hearing()) && BreaksOff() == old(BreaksOff())
        decreases |Remaining().bytes|
      {
        var r := Read(n);
        if r.Err? {
          return bytes, Some(r.error);
        }
        if r.value == [] {
          return bytes, None;
        }
        bytes := bytes + r.value;
      }
    }

    // -------- skipping --------

    /** Drops a compressed chunk that lies within the next `n` bytes without decoding it, or decodes
        it and moves to the `n`th byte; returns what is left to skip. */
    method SkipCompressedOrDecode(comp: bool, len: nat, n: nat) returns (r: Result<nat, Error>)
      requires Valid() && pos >= 4 && decodedPos == |decoded|
      modifies `pos, `decoded, `decodedPos, `blockStart
      ensures Valid() && pos >= old(pos) && (r.Ok? ==> r.value <= n)
      ensures SkippedData(old(Here()), old(Frontier()), old(pos), CompressedChunk(o, old(Frontier()), comp, len, old(Here())), n, r)
    {
      hide Block.SplitChunkBody, Block.DecodeChunkBody, Crc.Checksum, Le32;
      ghost var s := Here();
      if len < CHECKSUM_SIZE {
        return Err(Corrupt);
      }
      if len > MaxBufSize(maxBlock) {
        return Err(Corrupt);
      }
      var ok, buf := ReadExact(len);
      if !ok {
        return Err(Corrupt);
      }
      BodyIs(data, old(pos), len);
      var split := Block.SplitChunkBody(buf[CHECKSUM_SIZE..]);
      if split.Err? {
        return Err(InBlock(split.error));
      }
      var dlen := split.value.0;
      if dlen > maxBlock {
        return Err(TooLarge);
      }
      if dlen > n {
        blockStart := blockStart + |decoded|;
        var d := DecodeChecked(comp, buf);
        decoded, decodedPos := [], 0;
        if d.Err? {
          return Err(d.error);
        }
        assert |d.value| == dlen;
        decoded, decodedPos := d.value, n;
        return Ok(0);
      }
      blockStart := blockStart + |decoded| + dlen;
      decoded, decodedPos := [], 0;
      return Ok(n - dlen);
    }

    /** Where skipping up to `n` bytes of a data chunk leaves the reader, if the chunk is sound. */
    ghost predicate SkippedData(s: seq<byte>, st: State, from: nat, step: Step, n: nat, r: Result<nat, Error>)
      reads this
      requires Valid()
    {
      step.Next? ==>
        && pos == from - 4 + step.length && Frontier() == step.state
        && (if |step.payload| > n then r == Ok(0) && decoded == step.payload && decodedPos == n && blockStart == st.consumed
            else r == Ok(n - |step.payload|) && decoded == [] && decodedPos == 0)
    }

    method SkipUncompressedOrDecode(len: nat, n: nat) returns (r: Result<nat, Error>)
      requires Valid() && pos >= 4 && decodedPos == |decoded|
      modifies `pos, `decoded, `decodedPos, `blockStart
      ensures Valid() && pos >= old(pos) && (r.Ok? ==> r.value <= n)
      ensures SkippedData(old(Here()), old(Frontier()), old(pos), UncompressedChunk(o, old(Frontier()), len, old(Here())), n, r)
    {
      hide Crc.Checksum, Le32;
      BodyParts(data, pos, len);
      if len < CHECKSUM_SIZE {
        return Err(Corrupt);
      }
      var n2 := len - CHECKSUM_SIZE;
      if n2 > maxBlock {
        return Err(TooLarge);
      }
      if n2 > n {
        blockStart := blockStart + |decoded|;
        var ok, buf := ReadExact(CHECKSUM_SIZE);
        if !ok {
          return Err(Corrupt);
        }
        var checksum := Le32(buf, 0);
        decoded, decodedPos := [], 0;
        ok, buf := ReadExact(n2);
        if !ok {
          return Err(Corrupt);
        }
        decoded := buf;
        if !o.ignoreCrc && Crc.Checksum(decoded) != checksum {
          return Err(Crc);
        }
        decodedPos := n;
        return Ok(0);
      }
      blockStart := blockStart + |decoded| + n2;
      decoded, decodedPos := [], 0;
      var skipped := SkipN(len);
      if skipped.Err? {
        return Err(skipped.error);
      }
      return Ok(n - n2);
    }

    method SkipDispatch(kind: byte, len: nat, n: nat) returns (r: Result<nat, Error>)
      requires Valid() && pos >= 4 && |Here()| >= 4 && Here()[0] == kind && Le24(Here(), 1) == len
      requires decodedPos == |decoded| && (kind == CHUNK_TYPE_STREAM_IDENTIFIER ==> headerRead)
      requires headerRead || !NeedsHeader(kind)
      modifies this
      ensures Valid() && data == old(data) && err == old(err) && (r.Ok? ==> pos >= old(pos) && r.value <= n)
      ensures SkippedChunk(old(pos), old(decoded), old(Frontier()), Chunk(o, old(Frontier()), old(Here())), n, r)
    {
      hide Le24, CompressedChunk, UncompressedChunk, EofChunk, IdentifierChunk, SkippableChunk;
      HandlerFacts(o, Frontier(), len, Here());
      if kind == CHUNK_TYPE_COMPRESSED_DATA || kind == CHUNK_TYPE_COMPRESSED_DATA_COMP_CRC {
        r := SkipCompressedOrDecode(kind == CHUNK_TYPE_COMPRESSED_DATA_COMP_CRC, len, n);
      } else if kind == CHUNK_TYPE_UNCOMPRESSED_DATA {
        r := SkipUncompressedOrDecode(len, n);
      } else {
        var m: Result<(), Error>;
        if kind == CHUNK_TYPE_EOF {
          m := HandleEofChunk(len);
        } else if kind == CHUNK_TYPE_STREAM_IDENTIFIER {
          m := HandleStreamIdentifier(len);
        } else if kind <= MAX_NON_SKIPPABLE_CHUNK {
          m := Err(Unsupported);
        } else {
          m := HandleSkippable(kind, len);
        }
        r := if m.Err? then Err(m.error) else Ok(n);
      }
    }

    /** Where skipping up to `n` bytes of a sound chunk leaves the reader. */
    ghost predicate SkippedChunk(from: nat, was: seq<byte>, st: State, step: Step, n: nat, r: Result<nat, Error>)
      reads this
      requires Valid()
    {
      step.Next? ==>
        && pos == from - 4 + step.length && Frontier() == step.state
        && (if |step.payload| > n then r == Ok(0) && decoded == step.payload && decodedPos == n && blockStart == st.consumed
            else r == Ok(n - |step.payload|) && decodedPos == |decoded| && (decoded == [] || (step.payload == [] && decoded == was)))
    }

    /** One round of the skipping loop. */
    method SkipChunk(n: nat) returns (r: Result<nat, Error>)
      requires Valid() && err.None? && decodedPos == |decoded|
      modifies this
      ensures Valid() && data == old(data) && (r.Ok? ==> err.None? && pos > old(pos) && r.value <= n)
      ensures var step := Chunk(o, old(Frontier()), data[old(pos)..]);
              && SkippedChunk(old(pos) + 4, old(decoded), old(Frontier()), step, n, r)
              && (step.End? ==> r == Err(UnexpectedEof) && err == Some(UnexpectedEof))
    {
      hide Le24, Chunk;
      ghost var s, st := data[pos..], Frontier();
      HeaderCases(o, st, s);
      var h := ReadChunkHeader();
      if h.Err? {
        return Err(h.error);
      }
      if h.value.None? {
        err := Some(UnexpectedEof);
        return Err(UnexpectedEof);
      }
      var (kind, len) := h.value.value;
      if !headerRead {
        if kind == CHUNK_TYPE_STREAM_IDENTIFIER {
          headerRead := true;
        } else if kind <= MAX_NON_SKIPPABLE_CHUNK && kind != CHUNK_TYPE_EOF {
          err := Some(Corrupt);
          return Err(Corrupt);
        }
      }
      assert Here() == s;
      r := SkipDispatch(kind, len, n);
      if r.Err? {
        err := Some(r.error);
      }
    }

    /** The same round, in terms of what remains and of the place in the stream. */
    method SkipRound(n: nat) returns (r: Result<nat, Error>)
      requires Valid() && err.None? && decodedPos == |decoded|
      modifies this
      ensures Valid() && data == old(data) && (r.Ok? ==> err.None? && pos > old(pos) && r.value <= n)
      ensures old(Remaining()).error.None? ==>
                if r.Ok? then Remaining().error.None? && LeftOver(old(Remaining()).bytes, n, Remaining().bytes, r.value)
                else r == Err(UnexpectedEof) && err == Some(UnexpectedEof) && old(Remaining()).bytes == []
      ensures forall p, room :: old(Tracks(p, room)) ==>
                if r.Ok? then Tracks(p, room) && CurrentOffset() + r.value == old(CurrentOffset()) + n
                else old(CurrentOffset()) == |p|
    {
      hide Drain, Chunk, Placed, LeftOver;
      ghost var st, s, was, start, all := Frontier(), data[pos..], decoded, blockStart, Remaining();
      assert was[|was|..] + Ahead().bytes == Ahead().bytes;
      LeftOverStart(all.bytes, n);
      SkipLeaves(o, st, s, all, n, n);
      r := SkipChunk(n);
      if Chunk(o, st, s).Next? {
        assert s[Chunk(o, st, s).length..] == data[pos..];
      }
      assert decodedPos == |decoded| ==> decoded[decodedPos..] + Ahead().bytes == Ahead().bytes;
      forall p, room | old(Tracks(p, room))
        ensures if r.Ok? then Tracks(p, room) && CurrentOffset() + r.value == old(CurrentOffset()) + n
                else old(CurrentOffset()) == |p|
      {
        PlacedSkips(p, room, start, was, o, st, s);
      }
    }

    /** Skips `n` bytes: on input that decodes without an error, skipping succeeds exactly when that
        many bytes are left, and then what remains is what reading and dropping would leave. */
    method Skip(n: nat) returns (r: Result<(), Error>)
      requires Valid()
      modifies this
      ensures Valid() && data == old(data)
      ensures old(err).Some? ==> r == Err(old(err).value) && err == old(err)
      ensures old(err).None? && old(Remaining()).error.None? ==>
                var bytes := old(Remaining()).bytes;
                if n <= |bytes| then r == Ok(()) && err.None? && Remaining().bytes == bytes[n..] && Remaining().error.None?
                else r == Err(UnexpectedEof) && err == Some(UnexpectedEof)
      ensures forall p, room :: old(Tracks(p, room)) && old(CurrentOffset()) + n <= |p| ==>
                r.Ok? && Tracks(p, room) && CurrentOffset() == old(CurrentOffset()) + n
    {
      hide Drain, Placed, LeftOver;
      if err.Some? {
        return Err(err.value);
      }
      ghost var all := Remaining();
      LeftOverStart(all.bytes, n);
      var left: nat := n;
      while left > 0
        invariant Valid() && err.None? && data == old(data) && left <= n
        invariant all.error.None? ==> Remaining().error.None? && LeftOver(all.bytes, n, Remaining().bytes, left)
        invariant forall p, room :: old(Tracks(p, room)) ==> Tracks(p, room) && CurrentOffset() + left == old(CurrentOffset()) + n
        decreases |data| - pos
      {
        var avail := |decoded| - decodedPos;
        LeftInBlock(all.bytes, n, decoded, decodedPos, if avail >= left then left else avail, Ahead().bytes, left);
        if avail >= left {
          decodedPos := decodedPos + left;
          LeftOverNothing(all.bytes, n, Remaining().bytes, 0);
          return Ok(());
        }
        left := left - avail;
        decodedPos := |decoded|;
        assert forall p, room :: old(Tracks(p, room)) ==> Tracks(p, room) && CurrentOffset() + left == old(CurrentOffset()) + n;
        ghost var before := Remaining().bytes;
        var m := SkipRound(left);
        if m.Err? {
          LeftOverNothing(all.bytes, n, before, left);
          return Err(m.error);
        }
        LeftOverMore(all.bytes, n, before, left, Remaining().bytes, m.value);
        left := m.value;
      }
      LeftOverNothing(all.bytes, n, Remaining().bytes, left);
      return Ok(());
    }
  }

  /** An error is kept for later reads, except when the input breaks off in a chunk header: a single
      byte of padding after the end of a stream makes the first read fail and the next one report a
      clean end. */
  method ErrorForgotten(o: Options) returns (first: Result<seq<byte>, Error>, second: Result<seq<byte>, Error>)
    requires ValidOptions(o)
    ensures first == Err(Corrupt) && second == Ok([])
  {
    hide Drain, EndsInHeader, Heard;
    var reader := new Reader(o, [CHUNK_TYPE_PADDING]);
    assert reader.data[0..] == [CHUNK_TYPE_PADDING];
    BrokenHeader(o, reader.Frontier());
    first := reader.Read(1);
    assert reader.data[|reader.data|..] == [];
    CleanEnd(o, reader.Frontier());
    second := reader.Read(1);
  }

  lemma CleanEnd(o: Options, st: State)
    requires !st.expectEof
    ensures Drain(o, st, []) == Drained([], None, true, st.maxBlock)
  {
  }

  lemma BrokenHeader(o: Options, st: State)
    ensures EndsInHeader(o, st, [CHUNK_TYPE_PADDING]) && Drain(o, st, [CHUNK_TYPE_PADDING]).error == Some(Corrupt)
    ensures Drain(o, st, [CHUNK_TYPE_PADDING]).bytes == []
  {
  }

  /** The handlers' outcomes do not depend on the parts of the state they ignore. */
  lemma HandlerFacts(o: Options, st: State, len: nat, s: seq<byte>)
    requires |s| >= 4
    ensures EofChunk(o, st, len, s).Next? ==> EofChunk(o, st, len, s).payload == []
    ensures IdentifierChunk(o, st, len, s).Next? ==> IdentifierChunk(o, st, len, s).payload == []
    ensures SkippableChunk(o, st, s[0], len, s).Next? ==> SkippableChunk(o, st, s[0], len, s).payload == []
    ensures EofChunk(o, st, len, s).Next? ==> EofChunk(o, st, len, s).length >= 4
    ensures IdentifierChunk(o, st, len, s).Next? ==> IdentifierChunk(o, st, len, s).length >= 4
    ensures SkippableChunk(o, st, s[0], len, s).Next? ==> SkippableChunk(o, st, s[0], len, s).length >= 4
  {
  }

  lemma BodyIs(data: seq<byte>, p: nat, len: nat)
    requires 4 <= p && p + len <= |data|
    ensures Body(data[p - 4..], len) == data[p..p + len]
  {
  }

  /** The body of the chunk whose header ends at `p`, and its checksum. */
  lemma BodyParts(data: seq<byte>, p: nat, len: nat)
    requires 4 <= p <= |data|
    ensures p + len <= |data| && len >= CHECKSUM_SIZE ==>
              var body := Body(data[p - 4..], len);
              Le32(body, 0) == Le32(data[p..p + 4], 0) && body[4..] == data[p + 4..p + len]
  {
    if p + len <= |data| && len >= CHECKSUM_SIZE {
      var body := Body(data[p - 4..], len);
      assert body == data[p..p + len];
      assert body[..4] == data[p..p + 4];
      assert forall k :: 0 <= k < 4 ==> body[k] == data[p..p + 4][k];
    }
  }

  /** What the chunk header alone decides; noting a stream identifier before handling it makes no
      difference to the chunk. */
  lemma HeaderCases(o: Options, st: State, s: seq<byte>)
    ensures |s| < CHUNK_HEADER_SIZE ==> Chunk(o, st, s) == if s == [] && !st.expectEof then End else Fail(Corrupt)
    ensures |s| >= CHUNK_HEADER_SIZE ==> !Chunk(o, st, s).End?
    ensures |s| >= CHUNK_HEADER_SIZE && !st.headerRead && NeedsHeader(s[0]) ==> Chunk(o, st, s) == Fail(Corrupt)
    ensures |s| >= 4 && s[0] == CHUNK_TYPE_STREAM_IDENTIFIER ==> Chunk(o, st.(headerRead := true), s) == Chunk(o, st, s)
  {
  }

  /** While offsets run on, the noted offset is the one the next chunk starts at. */
  lemma SameStart(o: Options, st: State, s: seq<byte>)
    ensures s == [] || Drain(o, st, s).seamless ==> st.(consumed := StartOffset(st, s)) == st
  {
    DrainNext(o, st, s);
  }

  /** One chunk from the offset it starts at, whatever offset the reader had noted. */
  lemma Restart(o: Options, st: State, s: seq<byte>)
    ensures var st0 := st.(consumed := StartOffset(st, s));
            var d, c := Drain(o, st0, s), Chunk(o, st, s);
            && (!c.Next? ==> d.bytes == [] && d.error == if c.End? then None else Some(c.error))
            && (c.End? ==> s == [])
            && (c.Next? ==>
                  var d' := Drain(o, c.state, s[c.length..]);
                  && d.bytes == c.payload + d'.bytes && d.error == d'.error
                  && c.state.consumed == st0.consumed + |c.payload|
                  && (d.seamless ==> d'.seamless) && d'.room >= d.room && (c.payload != [] ==> c.state.headerRead && st0 == st))
  {
    var st0 := st.(consumed := StartOffset(st, s));
    StartOver(o, st, s);
    DrainNext(o, st0, s);
    OffsetMoves(o, st0, s);
  }

  /** `block` lies at offset `start` of `p`, and `ahead` is the rest of `p`, without a break and with
      blocks of up to `room` bytes allowed. */
  ghost predicate Placed(p: seq<byte>, room: nat, start: nat, block: seq<byte>, ahead: Drained) {
    && start + |block| <= |p|
    && block == p[start..start + |block|]
    && ahead.bytes == p[start + |block|..] && ahead.error == None && ahead.seamless && ahead.room >= room
  }

  lemma PlacedClean(p: seq<byte>, room: nat, start: nat, block: seq<byte>, ahead: Drained)
    requires Placed(p, room, start, block, ahead)
    ensures ahead.error == None && ahead.seamless && ahead.room >= room && start + |block| <= |p| && ahead.bytes == p[start + |block|..]
    ensures forall k :: 0 <= k <= |block| ==> block[k..] + ahead.bytes == p[start + k..]
  {
    forall k | 0 <= k <= |block| ensures block[k..] + ahead.bytes == p[start + k..] {
      assert block[k..] == p[start + k..start + |block|];
    }
  }

  /** Reading on from a stream identifier, whatever offset had been noted, fills the buffer with the
      start of the stream. */
  lemma PlacedOpens(p: seq<byte>, room: nat, o: Options, st: State, s: seq<byte>,
                    start': nat, block': seq<byte>, from': nat, ahead': Drained, ok: bool)
    requires s != [] && s[0] == CHUNK_TYPE_STREAM_IDENTIFIER && Placed(p, room, 0, [], Drain(o, st.(consumed := 0), s))
    requires var d := Drain(o, st.(consumed := StartOffset(st, s)), s);
             && (ok <==> d.bytes != [] || d.error.None?)
             && (ok && d.seamless ==> ahead'.seamless && start' + from' == StartOffset(st, s))
             && (ok ==> from' <= |block'| && ahead'.error == d.error && ahead'.room >= d.room
                        && block'[from'..] + ahead'.bytes == d.bytes && (from' == 0 || from' == |block'|))
    ensures ok && Placed(p, room, start', block', ahead') && start' == from' == 0
    ensures Drain(o, st.(consumed := StartOffset(st, s)), s).bytes == p
  {
    hide Drain;
    var d := Drain(o, st.(consumed := StartOffset(st, s)), s);
    assert p[0..] == p;
    assert block'[0..] == block';
    PlacedMoves(p, room, 0, [], d, 0, block', 0, ahead');
  }

  lemma SplitBytes(block: seq<byte>, i: nat, j: nat, rest: seq<byte>)
    requires i <= j <= |block|
    ensures block[i..] + rest == block[i..j] + (block[j..] + rest)
  {
    assert block[i..] == block[i..j] + block[j..];
  }

  lemma PlacedSlice(p: seq<byte>, room: nat, start: nat, block: seq<byte>, ahead: Drained, i: nat, j: nat)
    requires Placed(p, room, start, block, ahead) && i <= j <= |block|
    ensures start + j <= |p| && block[i..j] == p[start + i..start + j]
  {
    var slice := p[start + i..start + j];
    assert forall k :: 0 <= k < j - i ==> block[i..j][k] == block[i + k] && slice[k] == p[start + i + k];
  }

  /** A used-up block gives way to the next one, or to nothing at the end. */
  lemma PlacedMoves(p: seq<byte>, room: nat, start: nat, block: seq<byte>, ahead: Drained,
                    start': nat, block': seq<byte>, from': nat, ahead': Drained)
    requires Placed(p, room, start, block, ahead)
    requires from' <= |block'| && start' + from' == start + |block|
    requires block'[from'..] + ahead'.bytes == ahead.bytes && ahead'.error == None && ahead'.seamless && ahead'.room >= room
    requires from' == 0 || (from' == |block'| && ahead.bytes == [] && (block' == block || block' == []))
    ensures Placed(p, room, start', block', ahead')
  {
    if from' == 0 {
      assert block'[0..] == block';
      assert block' == (block' + ahead'.bytes)[..|block'|];
      assert ahead'.bytes == (block' + ahead'.bytes)[|block'|..];
    } else {
      assert ahead'.bytes == [];
    }
  }

  /** After dropping all but `left` of the first `n` bytes of `all`, `rest` remains. */
  ghost predicate LeftOver(all: seq<byte>, n: nat, rest: seq<byte>, left: nat) {
    |rest| - left == |all| - n && (n <= |all| ==> left <= |rest| && rest[left..] == all[n..])
  }

  lemma LeftOverStart(all: seq<byte>, n: nat)
    ensures LeftOver(all, n, all, n)
  {
  }

  /** Dropping `k` bytes that lie in the block in front. */
  lemma LeftInBlock(all: seq<byte>, n: nat, block: seq<byte>, at: nat, k: nat, ahead: seq<byte>, left: nat)
    requires at + k <= |block| && k <= left
    ensures LeftOver(all, n, block[at..] + ahead, left) ==> LeftOver(all, n, block[at + k..] + ahead, left - k)
  {
    var rest := block[at..] + ahead;
    assert rest[k..] == block[at + k..] + ahead;
    if LeftOver(all, n, rest, left) && n <= |all| {
      assert rest[k..][left - k..] == rest[left..];
    }
  }

  lemma LeftOverMore(all: seq<byte>, n: nat, before: seq<byte>, left: nat, rest: seq<byte>, left': nat)
    ensures LeftOver(all, n, before, left) && LeftOver(before, left, rest, left') ==> LeftOver(all, n, rest, left')
  {
  }

  /** With nothing left to drop, the right bytes remain; with nothing remaining, there were too few. */
  lemma LeftOverNothing(all: seq<byte>, n: nat, rest: seq<byte>, left: nat)
    ensures LeftOver(all, n, rest, left) && left == 0 ==> n <= |all| && rest == all[n..]
    ensures LeftOver(all, n, rest, left) && rest == [] && left > 0 ==> n > |all|
  {
  }

  /** What a skipped chunk does to the rest of the input. */
  lemma SkipLeaves(o: Options, st: State, s: seq<byte>, all: Drained, n: nat, left: nat)
    requires all.error.None? ==> Drain(o, st, s).error.None? && LeftOver(all.bytes, n, Drain(o, st, s).bytes, left)
    ensures var c := Chunk(o, st, s);
            all.error.None? ==>
              && !c.Fail? && (c.End? ==> |all.bytes| + left == n)
              && (c.Next? ==>
                    var d := Drain(o, c.state, s[c.length..]);
                    && d.error.None?
                    && (if |c.payload| > left then LeftOver(all.bytes, n, c.payload[left..] + d.bytes, 0)
                        else LeftOver(all.bytes, n, d.bytes, left - |c.payload|)))
  {
    hide Drain, Chunk;
    DrainNext(o, st, s);
    var c := Chunk(o, st, s);
    if all.error.None? && c.Next? {
      var d := Drain(o, c.state, s[c.length..]);
      assert c.payload[0..] == c.payload;
      LeftInBlock(all.bytes, n, c.payload, 0, if |c.payload| > left then left else |c.payload|, d.bytes, left);
      assert c.payload[|c.payload|..] + d.bytes == d.bytes;
    }
  }

  lemma PlacedSkips(p: seq<byte>, room: nat, start: nat, block: seq<byte>, o: Options, st: State, s: seq<byte>)
    requires Placed(p, room, start, block, Drain(o, st, s)) && st.consumed == start + |block|
    ensures var c := Chunk(o, st, s);
            && !c.Fail? && (c.End? ==> start + |block| == |p|)
            && (c.Next? ==>
                  var d := Drain(o, c.state, s[c.length..]);
                  && c.state.consumed == st.consumed + |c.payload| && (c.payload != [] ==> c.state.headerRead)
                  && Placed(p, room, st.consumed, c.payload, d) && Placed(p, room, c.state.consumed, [], d)
                  && (c.payload == [] ==> Placed(p, room, start, block, d)))
  {
    hide Drain, Chunk;
    DrainNext(o, st, s);
    OffsetMoves(o, st, s);
    var c := Chunk(o, st, s);
    if c.Next? {
      var d := Drain(o, c.state, s[c.length..]);
      assert c.payload[0..] == c.payload;
      PlacedMoves(p, room, start, block, Drain(o, st, s), st.consumed, c.payload, 0, d);
      if c.payload == [] {
        assert c.payload + d.bytes == d.bytes;
      }
    }
  }
}
