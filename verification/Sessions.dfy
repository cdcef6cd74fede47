/** Whole writer sessions: any calls, then `finish`; and what a reader gets from several of them. */
module Sessions {
  import opened Bytes
  import opened StreamFormat
  import opened StreamSpec
  import opened StreamRoundTrip
  import opened Chunking
  import opened StreamWriter
  import StreamReader

  datatype Call = Write(data: seq<byte>) | Flush | UserChunk(id: byte, body: seq<byte>)

  /** What one call makes of the pending input; a refused user chunk changes nothing. */
  function Applied(s: Pending, call: Call, size: nat, flushOnWrite: bool): Pending
    requires size >= 1
  {
    match call
    case Write(p) => if flushOnWrite then AcceptNow(s, p, size) else Accept(s, p, size)
    case Flush => Flushed(s, size)
    case UserChunk(id, body) => if ValidItem(User(id, body), size) then WithUser(s, id, body, size) else s
  }

  function After(calls: seq<Call>, size: nat, flushOnWrite: bool): Pending
    requires size >= 1
  {
    if calls == [] then Pending([], [])
    else Applied(After(calls[..|calls| - 1], size, flushOnWrite), calls[|calls| - 1], size, flushOnWrite)
  }

  /** The items of the finished session. */
  function Items(calls: seq<Call>, size: nat, flushOnWrite: bool): seq<Item>
    requires size >= 1
  {
    Flushed(After(calls, size, flushOnWrite), size).items
  }

  /** Everything written in the session. */
  function Input(calls: seq<Call>): seq<byte> {
    if calls == [] then []
    else Input(calls[..|calls| - 1]) + (if calls[|calls| - 1].Write? then calls[|calls| - 1].data else [])
  }

  lemma {:induction false} AfterKeeps(calls: seq<Call>, size: nat, flushOnWrite: bool)
    requires MIN_BLOCK_SIZE <= size <= MAX_BLOCK_SIZE
    ensures var s := After(calls, size, flushOnWrite);
            Fits(s, size) && Content(s.items) + s.buffer == Input(calls) && (flushOnWrite ==> s.buffer == [])
    decreases |calls|
  {
    hide Fits, Content, Accept, AcceptNow, Flushed, WithUser;
    if calls == [] {
      NothingYet(size);
    } else {
      var front, call := calls[..|calls| - 1], calls[|calls| - 1];
      AfterKeeps(front, size, flushOnWrite);
      var s := After(front, size, flushOnWrite);
      match call {
        case Write(p) =>
          if flushOnWrite {
            AcceptNowKeeps(s, p, size);
          } else {
            AcceptKeeps(s, p, size);
          }
        case Flush => FlushKeeps(s, size);
        case UserChunk(id, body) =>
          if ValidItem(User(id, body), size) {
            UserKeeps(s, id, body, size);
          }
      }
    }
  }

  lemma NothingYet(size: nat)
    requires size >= 1
    ensures Fits(Pending([], []), size) && Content([]) == []
  {
  }

  /** However the calls cut it up, the blocks of a session hold exactly what was written. */
  lemma SessionContent(calls: seq<Call>, size: nat, flushOnWrite: bool)
    requires MIN_BLOCK_SIZE <= size <= MAX_BLOCK_SIZE
    ensures var items := Items(calls, size, flushOnWrite);
            Content(items) == Input(calls) && ValidItems(items, size)
  {
    hide Content, Flushed;
    AfterKeeps(calls, size, flushOnWrite);
    FlushKeeps(After(calls, size, flushOnWrite), size);
  }

  // -------- user chunks --------

  /** The accepted user-chunk calls, each with what was written before it. */
  function UserCalls(calls: seq<Call>): seq<Marked> {
    if calls == [] then []
    else
      var front, call := calls[..|calls| - 1], calls[|calls| - 1];
      UserCalls(front) +
      (if call.UserChunk? && 0x80 <= call.id <= 0xfd && |call.body| <= 0xff_ffff then [Marked(call.id, call.body, Input(front))] else [])
  }

  lemma {:induction false} UsersOfData(items: seq<Item>, blocks: seq<Item>)
    requires forall i <- blocks :: i.Data?
    ensures UsersOf(items + blocks) == UsersOf(items)
    decreases |blocks|
  {
    hide Content;
    if blocks == [] {
      assert items + blocks == items;
    } else {
      var all, front := items + blocks, blocks[..|blocks| - 1];
      assert all[..|all| - 1] == items + front;
      assert all[|all| - 1] == blocks[|blocks| - 1] && blocks[|blocks| - 1] in blocks;
      assert forall i <- front :: i in blocks;
      UsersOfData(items, front);
    }
  }

  lemma UsersOfUser(items: seq<Item>, id: byte, body: seq<byte>)
    ensures UsersOf(items + [User(id, body)]) == UsersOf(items) + [Marked(id, body, Content(items))]
  {
    hide Content;
    assert (items + [User(id, body)])[..|items|] == items;
  }

  lemma {:induction false} AfterUsers(calls: seq<Call>, size: nat, flushOnWrite: bool)
    requires MIN_BLOCK_SIZE <= size <= MAX_BLOCK_SIZE
    ensures UsersOf(After(calls, size, flushOnWrite).items) == UserCalls(calls)
    ensures UsersOf(Items(calls, size, flushOnWrite)) == UserCalls(calls)
    decreases |calls|
  {
    hide Pieces, Cut, UsersOf, Content, Input, Fits;
    if calls == [] {
      NothingMarked();
    } else {
      var front, call := calls[..|calls| - 1], calls[|calls| - 1];
      AfterUsers(front, size, flushOnWrite);
      AfterKeeps(front, size, flushOnWrite);
      var s := After(front, size, flushOnWrite);
      match call {
        case Write(p) =>
          NoUsers(if flushOnWrite then p else s.buffer + p, size);
          UsersOfData(s.items, if flushOnWrite then Pieces(p, size) else Cut(s.buffer + p, size).0);
        case Flush =>
        case UserChunk(id, body) =>
          FlushKeeps(s, size);
          UsersOfUser(Flushed(s, size).items, id, body);
      }
    }
    var r := After(calls, size, flushOnWrite);
    NoUsers(r.buffer, size);
    UsersOfData(r.items, Pieces(r.buffer, size));
  }

  lemma NothingMarked()
    ensures UsersOf([]) == []
  {
  }

  /** The user chunks of a session are those of its accepted calls, in order, each right after what
      was written before the call. */
  lemma SessionUsers(calls: seq<Call>, size: nat, flushOnWrite: bool)
    requires MIN_BLOCK_SIZE <= size <= MAX_BLOCK_SIZE
    ensures UsersOf(Items(calls, size, flushOnWrite)) == UserCalls(calls)
  {
    hide UsersOf, Items, UserCalls;
    AfterUsers(calls, size, flushOnWrite);
  }

  /** The call adds a user chunk that stops a reader: one that must not be skipped and that no
      callback takes. */
  predicate Stops(o: Options, call: Call) {
    call.UserChunk? && |call.body| <= 0xff_ffff && 0xc0 <= call.id <= 0xfd && call.id !in o.callbacks
  }

  /** The only user chunks in the stream are those of the calls. */
  lemma {:induction false} SessionAccepts(o: Options, calls: seq<Call>, size: nat, flushOnWrite: bool)
    requires size >= 1 && forall c <- calls :: !Stops(o, c)
    ensures Accepts(o, After(calls, size, flushOnWrite).items) && Accepts(o, Items(calls, size, flushOnWrite))
    decreases |calls|
  {
    hide Pieces, Cut;
    if calls != [] {
      var front, call := calls[..|calls| - 1], calls[|calls| - 1];
      assert call in calls;
      assert forall c <- front :: c in calls;
      SessionAccepts(o, front, size, flushOnWrite);
      var s := After(front, size, flushOnWrite);
      if call.Write? {
        NoUsers(call.data, size);
        NoUsers(s.buffer + call.data, size);
      }
      NoUsers(s.buffer, size);
    }
    NoUsers(After(calls, size, flushOnWrite).buffer, size);
  }

  lemma {:induction false} NoUsers(data: seq<byte>, size: nat)
    requires size >= 1
    ensures (forall i <- Pieces(data, size) :: i.Data?) && (forall i <- Cut(data, size).0 :: i.Data?)
    decreases |data|
  {
    if |data| >= size {
      NoUsers(data[size..], size);
    }
  }

  /** A writer session: its options, its encoder and its calls. */
  datatype Session = Session(config: Config, codec: Codec, flushOnWrite: bool, calls: seq<Call>)

  ghost predicate Writable(s: Session) {
    && ValidConfig(s.config) && ValidCodec(s.codec)
    && Addressable(s.codec, Items(s.calls, s.config.blockSize, s.flushOnWrite))
  }

  /** What the sink holds after the session. */
  ghost function Sink(s: Session): seq<byte>
    requires Writable(s)
  {
    FinishedBytes(s.config, s.codec, Items(s.calls, s.config.blockSize, s.flushOnWrite))
  }

  /** The reader's limit admits the session's block size, and none of its user chunks stops it. */
  ghost predicate Welcome(o: Options, s: Session)
    requires Writable(s)
  {
    Negotiated(s.config.blockSize) <= o.maxBlockUser && forall c <- s.calls :: !Stops(o, c)
  }

  ghost predicate AllWelcome(o: Options, sessions: seq<Session>) {
    forall s <- sessions :: Writable(s) && Welcome(o, s)
  }

  ghost function Sinks(sessions: seq<Session>): seq<byte>
    requires forall s <- sessions :: Writable(s)
  {
    if sessions == [] then []
    else
      assert sessions[0] in sessions;
      Sink(sessions[0]) + Sinks(sessions[1..])
  }

  function Inputs(sessions: seq<Session>): seq<byte> {
    if sessions == [] then [] else Input(sessions[0].calls) + Inputs(sessions[1..])
  }

  /** The stream round trip: whatever sequences of writes, flushes and user chunks produced them, with
      whatever block size, level, padding and index, a reader of the sinks in a row gets the inputs in
      a row and then a clean end. */
  lemma {:induction false} SessionsRoundTrip(o: Options, st: State, sessions: seq<Session>)
    requires AllWelcome(o, sessions) && !st.expectEof
    ensures var d := Drain(o, st, Sinks(sessions)); d.bytes == Inputs(sessions) && d.error == None
    decreases |sessions|
  {
    hide Writable, Welcome, FinishedBytes;
    if sessions != [] {
      var s := sessions[0];
      assert s in sessions;
      SessionReadable(o, s);
      var items := Items(s.calls, s.config.blockSize, s.flushOnWrite);
      DrainFinished(o, st, s.config, s.codec, items, Sinks(sessions[1..]));
      SessionsRoundTrip(o, AfterReadable(o, Written(s.config, s.codec, items)), sessions[1..]);
    }
  }

  /** Skippable user chunks stop no reader, with or without callbacks. */
  lemma SkippableRoundTrip(o: Options, st: State, sessions: seq<Session>)
    requires !st.expectEof
    requires forall s <- sessions :: Writable(s) && Negotiated(s.config.blockSize) <= o.maxBlockUser
    requires forall s <- sessions :: forall c <- s.calls :: c.UserChunk? ==> 0x80 <= c.id <= 0xbf
    ensures var d := Drain(o, st, Sinks(sessions)); d.bytes == Inputs(sessions) && d.error == None
  {
    hide Writable, Drain, Sinks, Inputs, Negotiated;
    assert AllWelcome(o, sessions);
    SessionsRoundTrip(o, st, sessions);
  }

  /** What one session of several in a row delivers before the next. */
  lemma SessionRoundTrip(o: Options, st: State, s: Session, rest: seq<byte>)
    requires Writable(s) && Welcome(o, s)
    ensures var after := AfterEof(s.config.blockSize, Items(s.calls, s.config.blockSize, s.flushOnWrite));
            && Drain(o, st, Sink(s) + rest) == Prepend(Input(s.calls), Reopened(st, Drain(o, after, rest)))
            && UserChunks(o, st, Sink(s) + rest, []) == UserCalls(s.calls) + UserChunks(o, after, rest, Input(s.calls))
  {
    hide Items, Drain, FinishedBytes, Writable, Welcome, Readable, UserChunks, UsersOf, UserCalls, AfterEof;
    SessionReadable(o, s);
    WritableSize(s);
    var items := Items(s.calls, s.config.blockSize, s.flushOnWrite);
    DrainFinished(o, st, s.config, s.codec, items, rest);
    UserChunksOfFinished(o, st, s.config, s.codec, items, rest);
    SessionUsers(s.calls, s.config.blockSize, s.flushOnWrite);
  }

  lemma WritableSize(s: Session)
    requires Writable(s)
    ensures MIN_BLOCK_SIZE <= s.config.blockSize <= MAX_BLOCK_SIZE && ValidConfig(s.config) && ValidCodec(s.codec)
  {
  }

  /** Call `k` is the first of the session that stops the reader. */
  ghost predicate StopsAt(o: Options, s: Session, k: nat)
    requires Writable(s)
  {
    && Negotiated(s.config.blockSize) <= o.maxBlockUser
    && k < |s.calls| && Stops(o, s.calls[k]) && forall c <- s.calls[..k] :: !Stops(o, c)
  }

  /** The first call that stops the reader, in whichever session of several in a row, ends reading:
      what was written before it comes, then an error, whatever follows. */
  lemma {:induction false} SessionsStopped(o: Options, st: State, earlier: seq<Session>, s: Session, k: nat, rest: seq<byte>)
    requires AllWelcome(o, earlier) && Writable(s) && StopsAt(o, s, k)
    ensures var d := Drain(o, st, Sinks(earlier) + (Sink(s) + rest));
            d.bytes == Inputs(earlier) + Input(s.calls[..k]) && d.error == Some(Corrupt)
    decreases |earlier|
  {
    hide Writable, Welcome, StopsAt, Stops, Drain, Input, Sink, Items, UserChunks, UserCalls;
    var tail := Sink(s) + rest;
    if earlier == [] {
      SessionStopped(o, st, s, k, rest);
      assert Sinks(earlier) + tail == tail;
      StopIndex(o, s, k);
    } else {
      var e := earlier[0];
      assert e in earlier;
      assert Sinks(earlier) + tail == Sink(e) + (Sinks(earlier[1..]) + tail);
      SessionRoundTrip(o, st, e, Sinks(earlier[1..]) + tail);
      SessionsStopped(o, AfterSession(e), earlier[1..], s, k, rest);
      StopIndex(o, s, k);
      assert Input(e.calls) + (Inputs(earlier[1..]) + Input(s.calls[..k])) == Inputs(earlier) + Input(s.calls[..k]);
    }
  }

  ghost predicate AllFit(o: Options, sessions: seq<Session>) {
    forall s <- sessions :: Writable(s) && Negotiated(s.config.blockSize) <= o.maxBlockUser
  }

  /** Sessions within the reader's limit read back exactly when no call stops the reader. */
  lemma {:induction false} SessionsReadable(o: Options, st: State, sessions: seq<Session>)
    requires AllFit(o, sessions) && !st.expectEof
    ensures Drain(o, st, Sinks(sessions)).error == None <==> forall s <- sessions :: forall c <- s.calls :: !Stops(o, c)
    decreases |sessions|
  {
    hide Writable, Stops, Drain, Input, Sink, Items, UserChunks, UserCalls, Negotiated;
    if sessions == [] {
      SessionsRoundTrip(o, st, []);
    } else {
      var s := sessions[0];
      assert s in sessions;
      if call :| call in s.calls && Stops(o, call) {
        var k := FirstStop(o, s.calls);
        SessionStopped(o, st, s, k, Sinks(sessions[1..]));
      } else {
        SessionRoundTrip(o, st, s, Sinks(sessions[1..]));
        SessionsReadable(o, AfterSession(s), sessions[1..]);
        assert forall x <- sessions :: x == s || x in sessions[1..];
        assert forall x <- sessions[1..] :: x in sessions;
      }
    }
  }

  lemma {:induction false} FirstStop(o: Options, calls: seq<Call>) returns (k: nat)
    requires exists c <- calls :: Stops(o, c)
    ensures k < |calls| && Stops(o, calls[k]) && forall c <- calls[..k] :: !Stops(o, c)
    decreases |calls|
  {
    hide Stops;
    var front := calls[..|calls| - 1];
    if exists c <- front :: Stops(o, c) {
      k := FirstStop(o, front);
      assert front[..k] == calls[..k];
    } else {
      k := |calls| - 1;
    }
  }

  lemma StopIndex(o: Options, s: Session, k: nat)
    requires Writable(s) && StopsAt(o, s, k)
    ensures k < |s.calls|
  {
  }

  ghost function AfterSession(s: Session): State
    requires Writable(s)
  {
    AfterEof(s.config.blockSize, Items(s.calls, s.config.blockSize, s.flushOnWrite))
  }

  lemma SessionStopped(o: Options, st: State, s: Session, k: nat, rest: seq<byte>)
    requires Writable(s) && StopsAt(o, s, k)
    ensures var d := Drain(o, st, Sink(s) + rest); d.bytes == Input(s.calls[..k]) && d.error == Some(Corrupt)
  {
    hide Drain, Input, Negotiated, FinishedBytes, Addressable, ValidCodec, ValidItems, Accepts;
    var size := s.config.blockSize;
    var call, calls, all := s.calls[k], s.calls[..k], Items(s.calls, size, s.flushOnWrite);
    var front := Items(calls, size, s.flushOnWrite);
    SessionContent(calls, size, s.flushOnWrite);
    SessionAccepts(o, calls, size, s.flushOnWrite);
    ItemsGrow(s.calls, k + 1, size, s.flushOnWrite);
    StoppedItems(o, calls, call, size, s.flushOnWrite);
    assert s.calls[..k + 1] == calls + [call];
    var begun := front + [User(call.id, call.body)];
    assert all == begun + all[|begun|..];
    DrainStopped(o, st, s.config, s.codec, front, call.id, call.body, all[|begun|..], rest);
  }

  lemma StoppedItems(o: Options, calls: seq<Call>, call: Call, size: nat, flushOnWrite: bool)
    requires size >= 1 && Stops(o, call)
    ensures After(calls + [call], size, flushOnWrite).items == Items(calls, size, flushOnWrite) + [User(call.id, call.body)]
  {
    hide Pieces;
    assert (calls + [call])[..|calls|] == calls;
  }

  /** A user chunk that must not be skipped and has no callback ends reading with an error, after
      everything that was written before it. */
  lemma DrainStopped(o: Options, st: State, c: Config, codec: Codec, front: seq<Item>, id: byte, body: seq<byte>,
                     later: seq<Item>, rest: seq<byte>)
    requires ValidConfig(c) && Negotiated(c.blockSize) <= o.maxBlockUser && ValidCodec(codec)
    requires ValidItems(front, c.blockSize) && Accepts(o, front)
    requires 0xc0 <= id <= 0xfd && id !in o.callbacks && |body| <= MAX_USER_CHUNK_SIZE
    ensures var d := Drain(o, st, FinishedBytes(c, codec, front + [User(id, body)] + later) + rest);
            d.bytes == Content(front) && d.error == Some(Corrupt)
  {
    hide Drain, Chunk, ItemsBytes, Content, HeaderBytes, EofBytes, PaddingBytes, AppendedIndex, ValidCodec, Negotiated, Framed;
    var h, all := HeaderBytes(c.blockSize), FinishedBytes(c, codec, front + [User(id, body)] + later) + rest;
    BytesBefore(codec, front, id, body, later);
    var n := |h| + |ItemsBytes(codec, front)| + |Framed(id, body)|;
    var more := all[n..];
    var tail := ItemsBytes(codec, front) + (Framed(id, body) + more);
    assert all == h + tail;
    ReadHeader(o, st, c.blockSize, tail);
    DrainStep(o, st, h + tail);
    var st1 := State(true, true, Negotiated(c.blockSize), 0);
    NegotiatedHolds(c.blockSize);
    DrainItems(o, st1, c.blockSize, codec, front, Framed(id, body) + more);
    var st2 := st1.(consumed := |Content(front)|);
    ReadUser(o, st2, id, body, more);
    DrainFails(o, st2, Framed(id, body) + more);
    assert Content(front) + [] == Content(front);
    assert [] + Drain(o, st1, tail).bytes == Drain(o, st1, tail).bytes;
  }

  lemma DrainFails(o: Options, st: State, s: seq<byte>)
    requires Chunk(o, st, s).Fail?
    ensures var d := Drain(o, st, s); d.bytes == [] && d.error == Some(Chunk(o, st, s).error)
  {
    hide Chunk;
  }

  lemma BytesBefore(codec: Codec, front: seq<Item>, id: byte, body: seq<byte>, later: seq<Item>)
    ensures ItemsBytes(codec, front) + Framed(id, body) <= ItemsBytes(codec, front + [User(id, body)] + later)
  {
    hide Framed, ItemsBytes;
    ItemsConcat(codec, front + [User(id, body)], later);
    ItemsConcat(codec, front, [User(id, body)]);
    OneUserBytes(codec, id, body);
  }

  lemma OneUserBytes(codec: Codec, id: byte, body: seq<byte>)
    ensures ItemsBytes(codec, [User(id, body)]) == Framed(id, body)
  {
    hide Framed;
    assert ItemsBytes(codec, []) == [];
  }

  lemma SessionReadable(o: Options, s: Session)
    requires Writable(s) && Welcome(o, s)
    ensures var items := Items(s.calls, s.config.blockSize, s.flushOnWrite);
            && Readable(o, s.config, s.codec, items)
            && Content(items) == Input(s.calls)
            && Sink(s) == FinishedBytes(s.config, s.codec, items)
  {
    hide Items, Input, Content, FinishedBytes, Addressable, ValidCodec, Negotiated;
    SessionContent(s.calls, s.config.blockSize, s.flushOnWrite);
    SessionAccepts(o, s.calls, s.config.blockSize, s.flushOnWrite);
  }

  /** Later calls only append items. */
  lemma {:induction false} ItemsGrow(calls: seq<Call>, n: nat, size: nat, flushOnWrite: bool)
    requires size >= 1 && n <= |calls|
    ensures After(calls[..n], size, flushOnWrite).items <= After(calls, size, flushOnWrite).items
    ensures After(calls[..n], size, flushOnWrite).items <= Items(calls, size, flushOnWrite)
    decreases |calls|
  {
    hide Cut, Pieces;
    if n < |calls| {
      var front := calls[..|calls| - 1];
      ItemsGrow(front, n, size, flushOnWrite);
      assert front[..n] == calls[..n];
      var s := After(front, size, flushOnWrite);
      assert s.items <= Applied(s, calls[|calls| - 1], size, flushOnWrite).items;
    } else {
      assert calls[..n] == calls;
    }
  }

  lemma AddressablePart(codec: Codec, part: seq<Item>, all: seq<Item>)
    requires part <= all && Addressable(codec, all)
    ensures Addressable(codec, part)
  {
    hide Addressable;
    assert all == part + all[|part|..];
    AddressablePrefix(codec, part, all[|part|..]);
  }

  /** What the writer needs for its `n`th call. */
  lemma CallFits(s: Session, n: nat)
    requires Writable(s) && n < |s.calls|
    ensures var size := s.config.blockSize;
            var p := After(s.calls[..n], size, s.flushOnWrite);
            match s.calls[n]
            case Write(data) => Addressable(s.codec, (if s.flushOnWrite then AcceptNow(p, data, size) else Accept(p, data, size)).items)
            case Flush => Addressable(s.codec, Flushed(p, size).items)
            case UserChunk(id, body) => ValidItem(User(id, body), size) ==> Addressable(s.codec, Flushed(p, size).items)
    ensures After(s.calls[..n + 1], s.config.blockSize, s.flushOnWrite) ==
            Applied(After(s.calls[..n], s.config.blockSize, s.flushOnWrite), s.calls[n], s.config.blockSize, s.flushOnWrite)
  {
    hide Addressable, Cut, Pieces, Accept, AcceptNow, Flushed, ValidCodec;
    var size := s.config.blockSize;
    assert s.calls[..n + 1][..n] == s.calls[..n];
    ItemsGrow(s.calls, n + 1, size, s.flushOnWrite);
    var p, all := After(s.calls[..n], size, s.flushOnWrite), Items(s.calls, size, s.flushOnWrite);
    match s.calls[n] {
      case Write(data) =>
        AddressablePart(s.codec, (if s.flushOnWrite then AcceptNow(p, data, size) else Accept(p, data, size)).items, all);
      case Flush => AddressablePart(s.codec, Flushed(p, size).items, all);
      case UserChunk(id, body) =>
        if ValidItem(User(id, body), size) {
          AddressablePart(s.codec, Flushed(p, size).items, all);
        }
    }
  }

  /** The writer, driven by the calls of a session, fills the sink as specified. */
  method RunSession(s: Session, generateIndex: bool) returns (sink: seq<byte>)
    requires Writable(s)
    ensures sink == Sink(s)
  {
    hide Addressable, Cut, Pieces, Accept, AcceptNow, Flushed, WithUser, After, ValidCodec, FinishedBytes, Writer.Steady;
    var writer := new Writer(s.config, s.codec, s.flushOnWrite, generateIndex);
    NoCallsYet(s.config.blockSize, s.flushOnWrite);
    var i := 0;
    while i < |s.calls|
      invariant i <= |s.calls| && writer.Valid() && fresh(writer) && fresh(writer.index)
      invariant writer.config == s.config && writer.codec == s.codec && writer.flushOnWrite == s.flushOnWrite
      invariant writer.State() == After(s.calls[..i], s.config.blockSize, s.flushOnWrite)
    {
      CallFits(s, i);
      match s.calls[i] {
        case Write(p) =>
          var n := writer.Write(p);
        case Flush => writer.Flush();
        case UserChunk(id, body) =>
          var r := writer.AddUserChunk(id, body);
      }
      i := i + 1;
    }
    assert s.calls[..i] == s.calls;
    sink := writer.Finish();
  }

  lemma NoCallsYet(size: nat, flushOnWrite: bool)
    requires size >= 1
    ensures After([], size, flushOnWrite) == Pending([], [])
  {
  }

  /** A session written by a writer and read by a reader: the reader returns what was written, ends
      cleanly, and gives the callbacks the user chunks of the calls. */
  method WriteAndRead(s: Session, o: Options) returns (bytes: seq<byte>, error: Option<Error>, heard: seq<(byte, seq<byte>)>)
    requires ValidOptions(o) && Writable(s) && Welcome(o, s)
    ensures bytes == Input(s.calls) && error == None && heard == Taken(o, UserCalls(s.calls))
  {
    hide Writable, Welcome, Sink, Drain, Heard, Input, UserCalls, Taken;
    var sink := RunSession(s, false);
    var reader := new StreamReader.Reader(o, sink);
    SessionRead(o, s);
    assert sink[0..] == sink;
    bytes, error := reader.ReadToEnd(4096);
    heard := reader.heard;
  }

  lemma SessionRead(o: Options, s: Session)
    requires Writable(s) && Welcome(o, s)
    ensures var d := Drain(o, Initial(o), Sink(s)); d.bytes == Input(s.calls) && d.error == None
    ensures Heard(o, Initial(o), Sink(s)) == Taken(o, UserCalls(s.calls))
  {
    hide Writable, Welcome, Sink, Input, UserCalls, Taken, Items;
    var st := Initial(o);
    SessionRoundTrip(o, st, s, []);
    assert Sink(s) + [] == Sink(s);
    assert Input(s.calls) + [] == Input(s.calls);
    assert UserCalls(s.calls) + [] == UserCalls(s.calls);
    HeardAreTaken(o, st, Sink(s), []);
  }
}
