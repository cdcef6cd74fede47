/** The block API: headers, the choice of encoder, and the stream-chunk form of a block. */
module Block {
  import opened Bytes
  import opened BlockSpec
  import Encoding
  import EncodeL1
  import EncodeL2
  import EncodeL3
  import Decode

  datatype Error = Corrupt | TooLarge

  datatype Level = Fastest | Balanced | Smallest

  /** The hash functions of the three encoders. */
  datatype Hashes = Hashes(l1: EncodeL1.Hash, l2: EncodeL2.Hashes, l3: EncodeL3.Hashes)

  ghost predicate InRange(h: Hashes) {
    EncodeL1.InRange(h.l1) && EncodeL2.InRange(h.l2) && EncodeL3.InRange(h.l3)
  }

  function MaxEncodedLen(n: nat): Option<nat> {
    if n > MAX_BLOCK_SIZE then None else if n == 0 then Some(1) else Some(n + 2)
  }

  // -------- headers --------

  /** Whether the block is stored literally, its body, and its decoded length. */
  function ParseHeader(src: seq<byte>): Result<(bool, seq<byte>, nat), Error> {
    if |src| == 0 then Err(Corrupt)
    else if |src| == 1 then if src[0] == 0 then Ok((true, [], 0)) else Err(Corrupt)
    else if src[0] != 0 then Err(Corrupt)
    else
      var r := ReadUvarint(src, 1);
      if r.None? then Err(Corrupt)
      else
        var (v, next) := r.value;
        if v > 0xffff_ffff then Err(Corrupt)
        else if v > MAX_BLOCK_SIZE then Err(TooLarge)
        else if next == |src| then Err(Corrupt)
        else if v == 0 then Ok((true, src[next..], |src| - next))
        else if v < |src| - next then Err(Corrupt)
        else Ok((false, src[next..], v))
  }

  /** Splits a stream-chunk body into the decoded length and the compressed bytes. */
  function SplitChunkBody(body: seq<byte>): Result<(nat, seq<byte>), Error> {
    var r := ReadUvarint(body, 0);
    if r.None? then Err(Corrupt)
    else
      var (v, next) := r.value;
      if v > 0xffff_ffff then Err(Corrupt)
      else if v > MAX_BLOCK_SIZE then Err(TooLarge)
      else if v == 0 then Err(Corrupt)
      else if v < |body| - next then Err(Corrupt)
      else Ok((v, body[next..]))
  }

  function DecodeOrCorrupt(body: seq<byte>, dlen: nat): Result<seq<byte>, Error> {
    var r := DecodeBody(body, dlen);
    if r.Some? then Ok(r.value) else Err(Corrupt)
  }

  /** What decoding a block yields. */
  function DecodeBlock(src: seq<byte>): Result<seq<byte>, Error> {
    var h := ParseHeader(src);
    if h.Err? then Err(h.error)
    else if h.value.0 then Ok(h.value.1)
    else DecodeOrCorrupt(h.value.1, h.value.2)
  }

  /** What decoding a stream-chunk body yields. */
  function DecodeChunkBody(body: seq<byte>): (r: Result<seq<byte>, Error>)
    ensures r.Ok? ==> SplitChunkBody(body).Ok? && |r.value| == SplitChunkBody(body).value.0
  {
    var h := SplitChunkBody(body);
    if h.Err? then Err(h.error) else DecodeOrCorrupt(h.value.1, h.value.0)
  }

  // -------- decoding --------

  method DecodeInto(dst: seq<byte>, body: seq<byte>, dlen: nat) returns (r: Result<seq<byte>, Error>)
    ensures var d := DecodeOrCorrupt(body, dlen); r == if d.Ok? then Ok(dst + d.value) else d
  {
    hide DecodeBody;
    var buffer := new byte[dlen + Decode.OVERSHOOT_PAD];
    var ok := Decode.MinlzDecode(buffer, dlen, body);
    if !ok {
      return Err(Corrupt);
    }
    r := Ok(dst + buffer[..dlen]);
  }

  method AppendDecoded(dst: seq<byte>, src: seq<byte>) returns (r: Result<seq<byte>, Error>)
    ensures var d := DecodeBlock(src); r == if d.Ok? then Ok(dst + d.value) else d
  {
    hide ParseHeader, DecodeOrCorrupt;
    var h := ParseHeader(src);
    if h.Err? {
      return Err(h.error);
    }
    var (literals, body, dlen) := h.value;
    if literals {
      return Ok(dst + body);
    }
    r := DecodeInto(dst, body, dlen);
  }

  method AppendDecodedChunkBody(dst: seq<byte>, body: seq<byte>) returns (r: Result<seq<byte>, Error>)
    ensures var d := DecodeChunkBody(body); r == if d.Ok? then Ok(dst + d.value) else d
  {
    hide SplitChunkBody, DecodeOrCorrupt;
    var h := SplitChunkBody(body);
    if h.Err? {
      return Err(h.error);
    }
    r := DecodeInto(dst, h.value.1, h.value.0);
  }

  // -------- encoding --------

  /** How a compressed block's header is read back. */
  lemma HeaderOf(n: nat, body: seq<byte>)
    requires 0 < n <= MAX_BLOCK_SIZE && |body| > 0
    ensures ParseHeader([0] + Uvarint(n) + body) == if |body| <= n then Ok((false, body, n)) else Err(Corrupt)
  {
    hide Uvarint, ReadUvarint;
    var block, v := [0] + Uvarint(n) + body, Uvarint(n);
    assert block[1..1 + |v|] == v;
    UvarintRoundTrip(block, 1, n);
    assert block[1 + |v|..] == body;
  }

  /** A header and a body that decodes to `n` bytes: what the block decoder makes of them. */
  lemma CompressedBlock(src: seq<byte>, body: seq<byte>)
    requires 0 < |src| <= MAX_BLOCK_SIZE && |body| > 0 && DecodeBody(body, |src|) == Some(src)
    ensures DecodeBlock([0] + Uvarint(|src|) + body) == if |body| <= |src| then Ok(src) else Err(Corrupt)
  {
    hide DecodeBody, ParseHeader, Uvarint;
    HeaderOf(|src|, body);
  }

  lemma CompressedChunk(src: seq<byte>, body: seq<byte>)
    requires 0 < |src| <= MAX_BLOCK_SIZE && |body| <= |src| && DecodeBody(body, |src|) == Some(src)
    ensures DecodeChunkBody(Uvarint(|src|) + body) == Ok(src)
  {
    hide DecodeBody, Uvarint, ReadUvarint;
    var chunk, v := Uvarint(|src|) + body, Uvarint(|src|);
    assert chunk[0..0 + |v|] == v;
    UvarintRoundTrip(chunk, 0, |src|);
    assert chunk[|v|..] == body;
  }

  /** What the decoder makes of a block with any declared length and any body. */
  lemma AnyBlock(n: nat, body: seq<byte>)
    requires n < U64
    ensures DecodeBlock([0] + Uvarint(n) + body) ==
            if n > 0xffff_ffff then Err(Corrupt)
            else if n > 0x80_0000 then Err(TooLarge)
            else if body == [] then Err(Corrupt)
            else if n == 0 then Ok(body)
            else if |body| > n || DecodeBody(body, n).None? then Err(Corrupt)
            else Ok(DecodeBody(body, n).value)
  {
    hide Uvarint, ReadUvarint, DecodeBody;
    var block, v := [0] + Uvarint(n) + body, Uvarint(n);
    assert block[1..1 + |v|] == v;
    UvarintRoundTrip(block, 1, n);
    assert block[1 + |v|..] == body;
  }

  /** Nothing but a zero byte starts a block. */
  lemma NoBlock(src: seq<byte>)
    requires src == [] || src[0] != 0
    ensures DecodeBlock(src) == Err(Corrupt)
  {
  }

  lemma UncompressedBlock(src: seq<byte>)
    ensures DecodeBlock(if src == [] then [0] else [0, 0] + src) == Ok(src)
  {
    if src != [] {
      var block := [0, 0] + src;
      assert ReadUvarint(block, 1) == Some((0, 2));
      assert block[2..] == src;
    }
  }

  method EncodeUncompressed(dst: seq<byte>, src: seq<byte>) returns (r: seq<byte>)
    ensures r == dst + (if src == [] then [0] else [0, 0] + src)
  {
    r := dst + [0];
    if src == [] {
      return;
    }
    r := r + [0] + src;
  }

  /** Runs the encoder of `level` over `src`; an empty body means it gave up.  L1 and L2 stay within
      the space that `max_encoded_len` leaves after the header. */
  method EncodeBody(src: seq<byte>, level: Level, h: Hashes) returns (body: seq<byte>)
    requires MIN_NON_LITERAL_BLOCK_SIZE <= |src| <= MAX_BLOCK_SIZE && InRange(h)
    ensures |body| > 0 ==> DecodeBody(body, |src|) == Some(src)
    ensures !level.Smallest? ==> |body| <= Encoding.BodyCapacity(|src|)
    ensures Encoding.LongRun(src) ==> 0 < |body| <= 14
  {
    hide DecodeBody, Encoding.Uniform;
    match level
    case Fastest =>
      var buffer := new byte[Encoding.BodyCapacity(|src|)];
      var n := EncodeL1.EncodeBlock(buffer, src, h.l1);
      body := buffer[..n];
    case Balanced =>
      var buffer := new byte[Encoding.BodyCapacity(|src|)];
      var n := EncodeL2.EncodeBlock(buffer, src, h.l2);
      body := buffer[..n];
    case Smallest =>
      body := EncodeL3.EncodeBlock(src, h.l3);
  }

  /** `decode(encode(x))` is `x` for the two faster levels, within `max_encoded_len`; for the
      smallest level it is `x` exactly when the body did not outgrow the input. */
  method AppendEncoded(dst: seq<byte>, src: seq<byte>, level: Level, h: Hashes) returns (r: Result<seq<byte>, Error>)
    requires InRange(h)
    ensures |src| > MAX_BLOCK_SIZE ==> r == Err(TooLarge)
    ensures |src| <= MAX_BLOCK_SIZE ==> r.Ok? && dst <= r.value
    ensures |src| <= MAX_BLOCK_SIZE && !level.Smallest? ==>
              DecodeBlock(r.value[|dst|..]) == Ok(src) && |r.value| - |dst| <= MaxEncodedLen(|src|).value
    ensures |src| <= MAX_BLOCK_SIZE ==>
              (DecodeBlock(r.value[|dst|..]) == Ok(src) <==> |r.value| - |dst| <= 1 + |Uvarint(|src|)| + |src|)
    ensures Encoding.LongRun(src) && |src| <= MAX_BLOCK_SIZE ==> |r.value| - |dst| <= 19
  {
    hide DecodeBlock, DecodeBody, Uvarint, Encoding.Uniform;
    var max := MaxEncodedLen(|src|);
    if max.None? {
      return Err(TooLarge);
    }
    UncompressedBlock(src);
    if |src| < MIN_NON_LITERAL_BLOCK_SIZE {
      var out := EncodeUncompressed(dst, src);
      assert out[|dst|..] == if src == [] then [0] else [0, 0] + src;
      return Ok(out);
    }
    var out := dst + [0];
    out := PutUvarint(out, |src|);
    UvarintLength(|src|);
    var body := EncodeBody(src, level, h);
    if |body| > 0 {
      CompressedBlock(src, body);
      out := out + body;
      assert out[|dst|..] == [0] + Uvarint(|src|) + body;
      return Ok(out);
    }
    out := EncodeUncompressed(dst, src);
    assert out[|dst|..] == [0, 0] + src;
    return Ok(out);
  }

  /** A chunk body is produced only if it is smaller than the input, and then it decodes to it, at
      every level.  A long run of one byte is always worth one, of at most 18 bytes. */
  method AppendEncodedChunkBody(dst: seq<byte>, src: seq<byte>, level: Level, h: Hashes)
    returns (r: Result<bool, Error>, out: seq<byte>)
    requires InRange(h)
    ensures r.Err? <==> |src| > MAX_BLOCK_SIZE
    ensures r != Ok(true) ==> out == dst
    ensures r == Ok(true) ==>
              dst <= out && |out| - |dst| < |src| && DecodeChunkBody(out[|dst|..]) == Ok(src)
    ensures Encoding.LongRun(src) && |src| <= MAX_BLOCK_SIZE ==> r == Ok(true) && |out| - |dst| <= 18
  {
    hide DecodeChunkBody, DecodeBody, Uvarint, Encoding.Uniform;
    out := dst;
    if |src| < MIN_NON_LITERAL_BLOCK_SIZE {
      return Ok(false), dst;
    }
    if MaxEncodedLen(|src|).None? {
      return Err(TooLarge), dst;
    }
    out := PutUvarint(dst, |src|);
    UvarintLength(|src|);
    var body := EncodeBody(src, level, h);
    if |body| > 0 && |out| - |dst| + |body| < |src| {
      CompressedChunk(src, body);
      out := out + body;
      assert out[|dst|..] == Uvarint(|src|) + body;
      return Ok(true), out;
    }
    return Ok(false), dst;
  }

  /** `try_encode`: a block strictly smaller than the input, which decodes to it, or nothing; a long
      run of one byte always has one. */
  method TryEncode(dst: seq<byte>, src: seq<byte>, level: Level, h: Hashes)
    returns (r: Result<bool, Error>, out: seq<byte>)
    requires InRange(h)
    ensures r.Err? <==> |src| > MAX_BLOCK_SIZE
    ensures r != Ok(true) ==> out == dst
    ensures r == Ok(true) ==> dst <= out && |out| - |dst| < |src| && DecodeBlock(out[|dst|..]) == Ok(src)
    ensures Encoding.LongRun(src) && |src| <= MAX_BLOCK_SIZE ==> r == Ok(true) && |out| - |dst| <= 19
  {
    hide DecodeBlock, DecodeBody, Uvarint, Encoding.Uniform;
    if MaxEncodedLen(|src|).None? {
      return Err(TooLarge), dst;
    }
    if |src| < MIN_NON_LITERAL_BLOCK_SIZE {
      return Ok(false), dst;
    }
    out := PutUvarint(dst + [0], |src|);
    UvarintLength(|src|);
    var body := EncodeBody(src, level, h);
    if |body| > 0 && |out| - |dst| + |body| < |src| {
      CompressedBlock(src, body);
      out := out + body;
      assert out[|dst|..] == [0] + Uvarint(|src|) + body;
      return Ok(true), out;
    }
    return Ok(false), dst;
  }
}
