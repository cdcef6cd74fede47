/** The framed stream format (section 4 of the MinLZ specification): what each chunk means to a
    reader, as a pure step on the unread input, and what the whole input means. */
module StreamFormat {
  import opened Bytes
  import Block
  import BlockSpec
  import Crc

  const MIN_BLOCK_SIZE: nat := 0x1000
  const MAX_BLOCK_SIZE: nat := BlockSpec.MAX_BLOCK_SIZE
  const MAX_BLOCK_LOG: nat := 23
  const MAX_USER_CHUNK_SIZE: nat := 0xff_ffff
  const MIN_USER_SKIPPABLE_CHUNK: byte := 0x80
  const MIN_USER_NON_SKIPPABLE_CHUNK: byte := 0xc0
  const MAX_USER_NON_SKIPPABLE_CHUNK: byte := 0xfd
  const CHUNK_TYPE_PADDING: byte := 0xfe
  const CHUNK_TYPE_STREAM_IDENTIFIER: byte := 0xff
  const CHUNK_TYPE_UNCOMPRESSED_DATA: byte := 0x01
  const CHUNK_TYPE_COMPRESSED_DATA: byte := 0x02
  const CHUNK_TYPE_COMPRESSED_DATA_COMP_CRC: byte := 0x03
  const CHUNK_TYPE_EOF: byte := 0x20
  const MAX_NON_SKIPPABLE_CHUNK: byte := 0x3f
  const CHECKSUM_SIZE := 4
  const CHUNK_HEADER_SIZE := 4
  /** "MinLz" */
  const MAGIC_BODY: seq<byte> := [0x4d, 0x69, 0x6e, 0x4c, 0x7a]
  const MAGIC_BODY_LEN := 6

  datatype Error = Corrupt | Crc | TooLarge | Unsupported | UnexpectedEof | InBlock(cause: Block.Error)

  // -------- block sizes --------

  function BlockSizeIndicator(blockSize: nat): byte
    requires MIN_BLOCK_SIZE <= blockSize <= MAX_BLOCK_SIZE
  {
    IndicatorRange(blockSize);
    BitLength(blockSize - 1) - 10
  }

  function BlockSizeFromIndicator(indicator: byte): Option<nat> {
    var n: nat := indicator % 16 + 10;
    if n > MAX_BLOCK_LOG then None else Some(Pow2(n))
  }

  lemma IndicatorRange(blockSize: nat)
    requires MIN_BLOCK_SIZE <= blockSize <= MAX_BLOCK_SIZE
    ensures 12 <= BitLength(blockSize - 1) <= 23
  {
    hide BitLength, Pow2;
    SmallPowers();
    BitLengthFits(blockSize - 1, 11);
    BitLengthFits(blockSize - 1, 23);
  }

  lemma SmallPowers()
    ensures Pow2(10) == 0x400 && Pow2(11) == 0x800 && Pow2(12) == 0x1000 && Pow2(23) == 0x80_0000
  {
    assert Pow2(5) == 32;
    assert Pow2(10) == 0x400;
    assert Pow2(14) == 0x4000;
    assert Pow2(18) == 0x4_0000;
    assert Pow2(22) == 0x40_0000;
  }

  /** The indicator stands for the smallest power of two that holds the block size. */
  lemma IndicatorInverse(blockSize: nat)
    requires MIN_BLOCK_SIZE <= blockSize <= MAX_BLOCK_SIZE
    ensures var r := BlockSizeFromIndicator(BlockSizeIndicator(blockSize));
            && r.Some? && r.value == Pow2(BitLength(blockSize - 1))
            && blockSize <= r.value <= MAX_BLOCK_SIZE && r.value < 2 * blockSize
    ensures BlockSizeIndicator(blockSize) < 0x40
  {
    hide BitLength, Pow2;
    var n := BitLength(blockSize - 1);
    IndicatorRange(blockSize);
    SmallPowers();
    BitLengthFits(blockSize - 1, n);
    BitLengthFits(blockSize - 1, n - 1);
    Pow2Grows(n, 23);
    Pow2Double(n);
  }

  /** What the reader negotiates from a stream written with `blockSize`. */
  function Negotiated(blockSize: nat): nat
    requires MIN_BLOCK_SIZE <= blockSize <= MAX_BLOCK_SIZE
  {
    IndicatorRange(blockSize);
    Pow2(BitLength(blockSize - 1))
  }

  // -------- the reader's view of one chunk --------

  datatype Options = Options(maxBlockUser: nat, ignoreStreamId: bool, ignoreCrc: bool, callbacks: set<byte>)

  predicate ValidOptions(o: Options) { 0 < o.maxBlockUser <= MAX_BLOCK_SIZE }

  /** The reader between two chunks: `consumed` is the number of uncompressed bytes of this stream
      that lie before the next chunk. */
  datatype State = State(headerRead: bool, expectEof: bool, maxBlock: nat, consumed: nat)

  function Initial(o: Options): State { State(o.ignoreStreamId, false, o.maxBlockUser, 0) }

  /** The outcome of reading a chunk: the end of the input, an error, or `length` bytes of input
      that stand for `payload` and lead to `state`. */
  datatype Step = End | Fail(error: Error) | Next(payload: seq<byte>, length: nat, state: State)

  function MaxBufSize(maxBlock: nat): nat {
    var m := Block.MaxEncodedLen(maxBlock);
    (if m.Some? then m.value else MAX_BLOCK_SIZE) + CHECKSUM_SIZE
  }

  /** The body of the chunk at the start of `s`. */
  function Body(s: seq<byte>, len: nat): seq<byte>
    requires 4 + len <= |s|
  {
    s[4..4 + len]
  }

  /** The decoded bytes of a compressed chunk body, checksum included. */
  function DecodeCompressed(o: Options, comp: bool, body: seq<byte>, maxBlock: nat): Result<seq<byte>, Error>
    requires |body| >= CHECKSUM_SIZE
  {
    var block := body[4..];
    var split := Block.SplitChunkBody(block);
    if split.Err? then Err(InBlock(split.error))
    else if split.value.0 > maxBlock then Err(TooLarge)
    else
      var d := Block.DecodeChunkBody(block);
      if d.Err? then Err(InBlock(d.error))
      else if !o.ignoreCrc && Crc.Checksum(if comp then split.value.1 else d.value) != Le32(body, 0) then Err(Crc)
      else Ok(d.value)
  }

  function CompressedChunk(o: Options, st: State, comp: bool, len: nat, s: seq<byte>): Step
    requires |s| >= 4
  {
    if len < CHECKSUM_SIZE || len > MaxBufSize(st.maxBlock) || |s| - 4 < len then Fail(Corrupt)
    else
      var d := DecodeCompressed(o, comp, Body(s, len), st.maxBlock);
      if d.Err? then Fail(d.error)
      else Next(d.value, 4 + len, st.(consumed := st.consumed + |d.value|))
  }

  function UncompressedChunk(o: Options, st: State, len: nat, s: seq<byte>): Step
    requires |s| >= 4
  {
    if len < CHECKSUM_SIZE then Fail(Corrupt)
    else if len - CHECKSUM_SIZE > st.maxBlock then Fail(TooLarge)
    else if |s| - 4 < len then Fail(Corrupt)
    else
      var body := Body(s, len);
      if !o.ignoreCrc && Crc.Checksum(body[4..]) != Le32(body, 0) then Fail(Crc)
      else Next(body[4..], 4 + len, st.(consumed := st.consumed + len - CHECKSUM_SIZE))
  }

  /** Whether the total in an EOF chunk is the number of bytes the stream held. */
  predicate TotalMatches(body: seq<byte>, consumed: nat) {
    var v := ReadUvarint(body, 0);
    v.Some? && v.value.1 == |body| && v.value.0 == consumed
  }

  function EofChunk(o: Options, st: State, len: nat, s: seq<byte>): Step
    requires |s| >= 4
  {
    if len > MAX_VARINT_LEN_64 || |s| - 4 < len then Fail(Corrupt)
    else if len != 0 && !o.ignoreStreamId && !TotalMatches(Body(s, len), st.consumed) then Fail(Corrupt)
    else Next([], 4 + len, st.(expectEof := false, headerRead := false))
  }

  function IdentifierChunk(o: Options, st: State, len: nat, s: seq<byte>): Step
    requires |s| >= 4
  {
    if len != MAGIC_BODY_LEN || |s| - 4 < len then Fail(Corrupt)
    else
      var body := Body(s, len);
      var indicator := body[5];
      if body[..5] != MAGIC_BODY then Fail(Unsupported)
      else if indicator >= 0x40 then Fail(Corrupt)
      else
        var m := BlockSizeFromIndicator(indicator);
        if m.None? then Fail(Corrupt)
        else if m.value > o.maxBlockUser then Fail(TooLarge)
        else Next([], 4 + len, State(true, true, m.value, 0))
  }

  /** User chunks without a callback must be skippable. */
  predicate Refused(o: Options, id: byte) {
    id !in o.callbacks && MIN_USER_NON_SKIPPABLE_CHUNK <= id <= MAX_USER_NON_SKIPPABLE_CHUNK
  }

  function SkippableChunk(o: Options, st: State, id: byte, len: nat, s: seq<byte>): Step
    requires |s| >= 4
  {
    if Refused(o, id) || |s| - 4 < len then Fail(Corrupt) else Next([], 4 + len, st)
  }

  /** Whether a chunk type must not come before a stream identifier. */
  predicate NeedsHeader(kind: byte) {
    kind != CHUNK_TYPE_STREAM_IDENTIFIER && kind <= MAX_NON_SKIPPABLE_CHUNK && kind != CHUNK_TYPE_EOF
  }

  /** The next chunk of the unread input `s`. */
  function Chunk(o: Options, st: State, s: seq<byte>): (r: Step)
    ensures r.Next? ==> 4 <= r.length <= |s|
  {
    if |s| < CHUNK_HEADER_SIZE then if s == [] && !st.expectEof then End else Fail(Corrupt)
    else
      var kind, len := s[0], Le24(s, 1);
      if !st.headerRead && NeedsHeader(kind) then Fail(Corrupt)
      else if kind == CHUNK_TYPE_COMPRESSED_DATA || kind == CHUNK_TYPE_COMPRESSED_DATA_COMP_CRC then
        CompressedChunk(o, st, kind == CHUNK_TYPE_COMPRESSED_DATA_COMP_CRC, len, s)
      else if kind == CHUNK_TYPE_UNCOMPRESSED_DATA then UncompressedChunk(o, st, len, s)
      else if kind == CHUNK_TYPE_EOF then EofChunk(o, st, len, s)
      else if kind == CHUNK_TYPE_STREAM_IDENTIFIER then IdentifierChunk(o, st, len, s)
      else if kind <= MAX_NON_SKIPPABLE_CHUNK then Fail(Unsupported)
      else SkippableChunk(o, st, kind, len, s)
  }

  /** Everything the input still decodes to, the error after it, if any, whether offsets run on
      without a break, that is, no stream identifier comes after bytes of another stream, and the
      smallest block size limit in force from here on. */
  datatype Drained = Drained(bytes: seq<byte>, error: Option<Error>, seamless: bool, room: nat)

  function Prepend(p: seq<byte>, d: Drained): Drained { d.(bytes := p + d.bytes) }

  /** Whether the input goes on with a stream identifier although bytes came before it. */
  predicate Restarts(st: State, s: seq<byte>) {
    s != [] && s[0] == CHUNK_TYPE_STREAM_IDENTIFIER && st.consumed != 0
  }

  function Min(a: nat, b: nat): nat { if a <= b then a else b }

  /** `d` after the chunk at the start of `s`, read in state `st`. */
  function Joined(st: State, s: seq<byte>, d: Drained): Drained {
    d.(seamless := d.seamless && !Restarts(st, s), room := Min(st.maxBlock, d.room))
  }

  function Drain(o: Options, st: State, s: seq<byte>): (r: Drained)
    ensures r.room <= st.maxBlock
    decreases |s|
  {
    match Chunk(o, st, s)
    case End => Drained([], None, true, st.maxBlock)
    case Fail(e) => Drained([], Some(e), !Restarts(st, s), st.maxBlock)
    case Next(p, n, st') => Prepend(p, Joined(st, s, Drain(o, st', s[n..])))
  }

  // -------- what else a reader does on its way --------

  /** The user chunk at the start of `s` and its body, if it has a callback. */
  function HeardNow(o: Options, s: seq<byte>): seq<(byte, seq<byte>)> {
    if |s| >= 4 && 0x80 <= s[0] <= 0xfd && s[0] in o.callbacks && 4 + Le24(s, 1) <= |s| then [(s[0], Body(s, Le24(s, 1)))] else []
  }

  /** The user chunks handed to callbacks while all of `s` is read. */
  function Heard(o: Options, st: State, s: seq<byte>): seq<(byte, seq<byte>)>
    decreases |s|
  {
    var c := Chunk(o, st, s);
    if !c.Next? then [] else HeardNow(o, s) + Heard(o, c.state, s[c.length..])
  }

  /** Whether reading ends in the middle of a chunk header. */
  predicate EndsInHeader(o: Options, st: State, s: seq<byte>)
    decreases |s|
  {
    var c := Chunk(o, st, s);
    if c.Next? then EndsInHeader(o, c.state, s[c.length..]) else c.Fail? && |s| < CHUNK_HEADER_SIZE
  }

  lemma Onward(o: Options, st: State, s: seq<byte>)
    ensures var c := Chunk(o, st, s);
            if c.Next? then
              var st', s' := c.state, s[c.length..];
              Heard(o, st, s) == HeardNow(o, s) + Heard(o, st', s') && EndsInHeader(o, st, s) == EndsInHeader(o, st', s')
            else
              Heard(o, st, s) == [] && EndsInHeader(o, st, s) == (c.Fail? && |s| < CHUNK_HEADER_SIZE)
  {
    hide Chunk, HeardNow;
  }
}
