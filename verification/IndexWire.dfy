/** The serialised index (section 4.12 of the MinLZ specification): signed varints, offsets coded as
    differences from a predictor that the encoder and the decoder move in lock step. */
module IndexWire {
  import opened Bytes
  import opened IndexTable

  const CHUNK_TYPE_INDEX: byte := 0x40
  const LEGACY_INDEX_CHUNK: byte := 0x99
  /** "s2idx\0" and its reverse. */
  const INDEX_HEADER: seq<byte> := [0x73, 0x32, 0x69, 0x64, 0x78, 0]
  const INDEX_TRAILER: seq<byte> := [0, 0x78, 0x64, 0x69, 0x32, 0x73]

  // -------- signed varints --------

  predicate I64(v: int) { -0x8000_0000_0000_0000 <= v <= I64_MAX }

  function Zigzag(v: int): nat { if v >= 0 then 2 * v else -2 * v - 1 }

  function Unzigzag(u: nat): int { if u % 2 == 0 then u / 2 else -(u / 2) - 1 }

  function Varint(v: int): seq<byte> { Uvarint(Zigzag(v)) }

  /** Why no varint can be read at `at`: the input ends first, or the value overflows. */
  function VarintError(b: seq<byte>, at: nat): Error
    requires at <= |b|
  {
    if |b| - at > MAX_VARINT_LEN_64 || (|b| - at == MAX_VARINT_LEN_64 && b[|b| - 1] < 0x80) then Invalid else Truncated
  }

  function ReadVarint(b: seq<byte>, at: nat): (r: Result<(int, nat), Error>)
    requires at <= |b|
    ensures r.Ok? ==> at < r.value.1 <= |b| && I64(r.value.0)
  {
    var u := ReadUvarint(b, at);
    if u.None? then Err(VarintError(b, at)) else Ok((Unzigzag(u.value.0), u.value.1))
  }

  /** `b` holds `part` at position `at`. */
  predicate Holds(b: seq<byte>, at: nat, part: seq<byte>) {
    at + |part| <= |b| && b[at..at + |part|] == part
  }

  lemma VarintRoundTrip(b: seq<byte>, at: nat, v: int)
    requires I64(v) && Holds(b, at, Varint(v))
    ensures ReadVarint(b, at) == Ok((v, at + |Varint(v)|))
  {
    UvarintRoundTrip(b, at, Zigzag(v));
  }

  /** Rust's `/ 2`, which truncates toward zero. */
  function Half(v: int): int { if v >= 0 then v / 2 else -(-v / 2) }

  // -------- what is written --------

  function OptToWire(v: Option<nat>): int { if v.None? then -1 else v.value }

  function WireToOpt(v: int): Option<nat> { if v < 0 then None else Some(v) }

  /** Whether the uncompressed offsets differ from exact multiples of the spacing. */
  predicate HasUncompressed(es: seq<OffsetPair>, est: nat) {
    (|es| > 0 && es[0].uncompressed != 0)
    || exists i :: 0 < i < |es| && es[i].uncompressed != es[i - 1].uncompressed + est
  }

  /** The coded form of the `i`th uncompressed offset. */
  function UncompressedWire(es: seq<OffsetPair>, est: nat, i: nat): int
    requires i < |es|
  {
    if i == 0 then es[0].uncompressed else es[i].uncompressed - (es[i - 1].uncompressed + est)
  }

  /** The compressed distance predicted when the `i`th entry is coded. */
  function Predictor(es: seq<OffsetPair>, est: nat, i: nat): int
    requires i <= |es|
    decreases i, 0
  {
    if i <= 1 then est / 2 else Predictor(es, est, i - 1) + Half(CompressedWire(es, est, i - 1))
  }

  function CompressedWire(es: seq<OffsetPair>, est: nat, i: nat): int
    requires i < |es|
    decreases i, 1
  {
    if i == 0 then es[0].compressed
    else es[i].compressed - (es[i - 1].compressed + Predictor(es, est, i))
  }

  function UncompressedBytes(es: seq<OffsetPair>, est: nat, n: nat): seq<byte>
    requires n <= |es|
  {
    if n == 0 then [] else UncompressedBytes(es, est, n - 1) + Varint(UncompressedWire(es, est, n - 1))
  }

  function CompressedBytes(es: seq<OffsetPair>, est: nat, n: nat): seq<byte>
    requires n <= |es|
  {
    if n == 0 then [] else CompressedBytes(es, est, n - 1) + Varint(CompressedWire(es, est, n - 1))
  }

  function Offsets(t: Table): seq<byte> {
    var n := |t.entries|;
    (if HasUncompressed(t.entries, t.est) then [1] + UncompressedBytes(t.entries, t.est, n) else [0])
    + CompressedBytes(t.entries, t.est, n)
  }

  /** The chunk without its envelope. */
  function Payload(t: Table, totalU: Option<nat>, totalC: Option<nat>): seq<byte> {
    Counts(t, totalU, totalC) + Offsets(t)
  }

  function Counts(t: Table, totalU: Option<nat>, totalC: Option<nat>): seq<byte> {
    Varint(OptToWire(totalU)) + Varint(OptToWire(totalC)) + Varint(t.est) + Varint(|t.entries|)
  }

  /** The chunk around a payload. */
  function Envelope(payload: seq<byte>): seq<byte> {
    var size := 4 + |INDEX_HEADER| + |payload| + 4 + |INDEX_TRAILER|;
    [CHUNK_TYPE_INDEX] + Le24Bytes(size - 4) + INDEX_HEADER + payload + Closing(size)
  }

  /** The redundant size and the trailer. */
  function Closing(size: nat): seq<byte> { Le32Bytes(size) + INDEX_TRAILER }

  function Serialize(t: Table, totalU: Option<nat>, totalC: Option<nat>): seq<byte> {
    Envelope(Payload(t, totalU, totalC))
  }

  // -------- what is read --------

  datatype Loaded = Loaded(totalU: nat, totalC: Option<nat>, table: Table)

  /** Reads one coded uncompressed offset; without them every entry is exactly one spacing on. */
  function ReadWire(b: seq<byte>, at: nat, has: bool): (r: Result<(int, nat), Error>)
    requires at <= |b|
    ensures r.Ok? ==> at <= r.value.1 <= |b| && I64(r.value.0)
  {
    if has then ReadVarint(b, at) else Ok((0, at))
  }

  /** Reads uncompressed offsets `idx..n`, the one before them being `prev`. */
  function ReadUncompressed(b: seq<byte>, at: nat, idx: nat, n: nat, has: bool, est: nat, prev: nat): (r: Result<(seq<nat>, nat), Error>)
    requires at <= |b| && idx <= n
    ensures r.Ok? ==> |r.value.0| == n - idx && at <= r.value.1 <= |b|
    decreases n - idx
  {
    if idx == n then Ok(([], at))
    else
      var v := ReadWire(b, at, has);
      if v.Err? then Err(v.error)
      else
        var (wire, next) := v.value;
        var off := if idx > 0 then prev + est + wire else wire;
        if idx > 0 && (!I64(prev + est) || !I64(off) || off <= prev) then Err(Invalid)
        else if off < 0 then Err(Invalid)
        else
          var rest := ReadUncompressed(b, next, idx + 1, n, has, est, off);
          if rest.Err? then Err(rest.error) else Ok(([off as nat] + rest.value.0, rest.value.1))
  }

  /** Reads compressed offsets `idx..n` with the predictor at `predict`. */
  function ReadCompressed(b: seq<byte>, at: nat, idx: nat, n: nat, predict: int, prev: nat): (r: Result<(seq<nat>, nat), Error>)
    requires at <= |b| && idx <= n
    ensures r.Ok? ==> |r.value.0| == n - idx && at <= r.value.1 <= |b|
    decreases n - idx
  {
    if idx == n then Ok(([], at))
    else
      var v := ReadVarint(b, at);
      if v.Err? then Err(v.error)
      else
        var (wire, next) := v.value;
        var predictNext := if idx > 0 then predict + Half(wire) else predict;
        var off := if idx > 0 then prev + predict + wire else wire;
        if idx > 0 && (!I64(predictNext) || !I64(prev + predict) || !I64(off) || off <= prev) then Err(Invalid)
        else if off < 0 then Err(Invalid)
        else
          var rest := ReadCompressed(b, next, idx + 1, n, predictNext, off);
          if rest.Err? then Err(rest.error) else Ok(([off as nat] + rest.value.0, rest.value.1))
  }

  function Zip(cs: seq<nat>, us: seq<nat>): seq<OffsetPair>
    requires |cs| == |us|
  {
    if cs == [] then [] else [OffsetPair(cs[0], us[0])] + Zip(cs[1..], us[1..])
  }

  /** Reads the totals, spacing and entry count at `at`. */
  function ReadCounts(b: seq<byte>, at: nat): (r: Result<(nat, Option<nat>, nat, nat, nat), Error>)
    requires at <= |b|
    ensures r.Ok? ==> at <= r.value.4 <= |b|
  {
    var u := ReadVarint(b, at);
    if u.Err? then Err(u.error)
    else if u.value.0 < 0 then Err(Invalid)
    else
      var c := ReadVarint(b, u.value.1);
      if c.Err? then Err(c.error)
      else
        var e := ReadVarint(b, c.value.1);
        if e.Err? then Err(e.error)
        else if e.value.0 < 0 then Err(Invalid)
        else
          var n := ReadVarint(b, e.value.1);
          if n.Err? then Err(n.error)
          else if n.value.0 < 0 || n.value.0 > MAX_INDEX_ENTRIES then Err(Invalid)
          else Ok((u.value.0, WireToOpt(c.value.0), e.value.0, n.value.0, n.value.1))
  }

  /** Reads both offset lists and the trailer at `at`. */
  function ReadOffsets(b: seq<byte>, at: nat, n: nat, est: nat): (r: Result<(seq<OffsetPair>, nat), Error>)
    requires at <= |b|
    ensures r.Ok? ==> at <= r.value.1 <= |b|
  {
    if at == |b| then Err(Truncated)
    else if b[at] > 1 then Err(BadFormat)
    else
      var us := ReadUncompressed(b, at + 1, 0, n, b[at] == 1, est, 0);
      if us.Err? then Err(us.error)
      else
        var cs := ReadCompressed(b, us.value.1, 0, n, est / 2, 0);
        if cs.Err? then Err(cs.error)
        else
          var end := cs.value.1;
          if |b| - end < 4 + |INDEX_TRAILER| then Err(Truncated)
          else if b[end + 4..end + 4 + |INDEX_TRAILER|] != INDEX_TRAILER then Err(BadFormat)
          else Ok((Zip(cs.value.0, us.value.0), end + 4 + |INDEX_TRAILER|))
  }

  /** What `load` makes of `bytes`, and where the unconsumed tail starts. */
  function Parse(bytes: seq<byte>): (r: Result<(Loaded, nat), Error>)
    ensures r.Ok? ==> r.value.1 <= |bytes|
  {
    if |bytes| <= 4 + |INDEX_HEADER| + |INDEX_TRAILER| then Err(Truncated)
    else if bytes[0] != CHUNK_TYPE_INDEX && bytes[0] != LEGACY_INDEX_CHUNK then Err(BadFormat)
    else if |bytes| - 4 < Le24(bytes, 1) then Err(Truncated)
    else if bytes[4..10] != INDEX_HEADER then Err(BadFormat)
    else
      var r := ReadCounts(bytes, 10);
      if r.Err? then Err(r.error)
      else
        var (totalU, totalC, est, n, at) := r.value;
        var es := ReadOffsets(bytes, at, n, est);
        if es.Err? then Err(es.error)
        else Ok((Loaded(totalU, totalC, Table(es.value.0, est)), es.value.1))
  }

  // -------- round trip --------

  predicate Small(v: nat) { v < 0x2000_0000_0000_0000 }

  /** Every number of the table is below 2^61, where none of the signed sums can overflow. */
  predicate SmallTable(t: Table) {
    Small(t.est) && |t.entries| <= MAX_INDEX_ENTRIES
    && forall e <- t.entries :: Small(e.compressed) && Small(e.uncompressed)
  }

  predicate UAscending(es: seq<OffsetPair>, from: nat) {
    forall i :: 0 < i < |es| && from <= i ==> es[i - 1].uncompressed < es[i].uncompressed
  }

  predicate CAscending(es: seq<OffsetPair>, from: nat) {
    forall i :: 0 < i < |es| && from <= i ==> es[i - 1].compressed < es[i].compressed
  }

  lemma AscendingStep(es: seq<OffsetPair>, i: nat)
    requires i < |es|
    ensures UAscending(es, i) <==> (i == 0 || es[i - 1].uncompressed < es[i].uncompressed) && UAscending(es, i + 1)
    ensures CAscending(es, i) <==> (i == 0 || es[i - 1].compressed < es[i].compressed) && CAscending(es, i + 1)
  {
  }

  function USuffix(es: seq<OffsetPair>, i: nat): (r: seq<nat>)
    requires i <= |es|
    ensures |r| == |es| - i
    decreases |es| - i
  {
    if i == |es| then [] else [es[i].uncompressed] + USuffix(es, i + 1)
  }

  function CSuffix(es: seq<OffsetPair>, i: nat): (r: seq<nat>)
    requires i <= |es|
    ensures |r| == |es| - i
    decreases |es| - i
  {
    if i == |es| then [] else [es[i].compressed] + CSuffix(es, i + 1)
  }

  lemma {:induction false} ZipSuffixes(es: seq<OffsetPair>, i: nat)
    requires i <= |es|
    ensures Zip(CSuffix(es, i), USuffix(es, i)) == es[i..]
    decreases |es| - i
  {
    if i < |es| {
      ZipSuffixes(es, i + 1);
    }
  }

  lemma HoldsParts(b: seq<byte>, at: nat, x: seq<byte>, y: seq<byte>)
    requires Holds(b, at, x + y)
    ensures Holds(b, at, x) && Holds(b, at + |x|, y)
  {
    assert b[at..at + |x|] == (x + y)[..|x|];
    assert b[at + |x|..at + |x| + |y|] == (x + y)[|x|..];
  }

  lemma {:induction false} HoldsUncompressed(b: seq<byte>, at: nat, es: seq<OffsetPair>, est: nat, i: nat, n: nat)
    requires i < n <= |es| && Holds(b, at, UncompressedBytes(es, est, n))
    ensures Holds(b, at + |UncompressedBytes(es, est, i)|, Varint(UncompressedWire(es, est, i)))
    decreases n
  {
    hide Varint, UncompressedWire;
    HoldsParts(b, at, UncompressedBytes(es, est, n - 1), Varint(UncompressedWire(es, est, n - 1)));
    if i < n - 1 {
      HoldsUncompressed(b, at, es, est, i, n - 1);
    }
  }

  lemma {:induction false} HoldsCompressed(b: seq<byte>, at: nat, es: seq<OffsetPair>, est: nat, i: nat, n: nat)
    requires i < n <= |es| && Holds(b, at, CompressedBytes(es, est, n))
    ensures Holds(b, at + |CompressedBytes(es, est, i)|, Varint(CompressedWire(es, est, i)))
    decreases n
  {
    hide Varint, CompressedWire;
    HoldsParts(b, at, CompressedBytes(es, est, n - 1), Varint(CompressedWire(es, est, n - 1)));
    if i < n - 1 {
      HoldsCompressed(b, at, es, est, i, n - 1);
    }
  }

  /** The bytes that the first `i` uncompressed offsets take. */
  function USize(es: seq<OffsetPair>, est: nat, i: nat): nat
    requires i <= |es|
  {
    if HasUncompressed(es, est) then |UncompressedBytes(es, est, i)| else 0
  }

  /** The uncompressed offsets, if there are any on the wire, start at `at`. */
  predicate HoldsOffsets(b: seq<byte>, at: nat, t: Table) {
    && at <= |b|
    && (HasUncompressed(t.entries, t.est) ==> Holds(b, at, UncompressedBytes(t.entries, t.est, |t.entries|)))
  }

  lemma WireRoundTrip(b: seq<byte>, at: nat, t: Table, i: nat)
    requires SmallTable(t) && i < |t.entries| && HoldsOffsets(b, at, t)
    ensures at + USize(t.entries, t.est, i) <= |b|
    ensures ReadWire(b, at + USize(t.entries, t.est, i), HasUncompressed(t.entries, t.est)) ==
            Ok((UncompressedWire(t.entries, t.est, i), at + USize(t.entries, t.est, i + 1)))
  {
    hide Varint, ReadVarint, HasUncompressed, UncompressedWire, SmallTable, Holds, UncompressedBytes;
    var es := t.entries;
    WireInRange(t, i);
    if HasUncompressed(es, t.est) {
      HoldsUncompressed(b, at, es, t.est, i, |es|);
      VarintRoundTrip(b, at + |UncompressedBytes(es, t.est, i)|, UncompressedWire(es, t.est, i));
      NextUncompressed(es, t.est, i);
      HeldFits(b, at + |UncompressedBytes(es, t.est, i)|, Varint(UncompressedWire(es, t.est, i)));
    }
  }

  /** A coded uncompressed offset is a signed number, zero if none are written. */
  lemma WireInRange(t: Table, i: nat)
    requires SmallTable(t) && i < |t.entries|
    ensures var w := UncompressedWire(t.entries, t.est, i); I64(w) && (!HasUncompressed(t.entries, t.est) ==> w == 0)
  {
    var es := t.entries;
    assert es[i] in es && (i > 0 ==> es[i - 1] in es);
  }

  lemma NextUncompressed(es: seq<OffsetPair>, est: nat, i: nat)
    requires i < |es|
    ensures |UncompressedBytes(es, est, i + 1)| == |UncompressedBytes(es, est, i)| + |Varint(UncompressedWire(es, est, i))|
  {
    hide Varint, UncompressedWire;
  }

  lemma HeldFits(b: seq<byte>, at: nat, part: seq<byte>)
    requires Holds(b, at, part)
    ensures at + |part| <= |b|
  {
  }

  function UBefore(es: seq<OffsetPair>, i: nat): nat
    requires i <= |es|
  {
    if i > 0 then es[i - 1].uncompressed else 0
  }

  function CBefore(es: seq<OffsetPair>, i: nat): nat
    requires i <= |es|
  {
    if i > 0 then es[i - 1].compressed else 0
  }

  /** Reading back the uncompressed offsets, whether they were written or implied: from entry `i`
      on it succeeds exactly when they keep ascending. */
  lemma {:induction false} UncompressedRoundTrip(b: seq<byte>, at: nat, t: Table, i: nat)
    requires SmallTable(t) && i <= |t.entries| && HoldsOffsets(b, at, t)
    ensures var es := t.entries;
            && at + USize(es, t.est, i) <= |b|
            && ReadUncompressed(b, at + USize(es, t.est, i), i, |es|, HasUncompressed(es, t.est), t.est, UBefore(es, i)) ==
               if UAscending(es, i) then Ok((USuffix(es, i), at + USize(es, t.est, |es|))) else Err(Invalid)
    decreases |t.entries| - i
  {
    hide ReadWire, HasUncompressed, USize, HoldsOffsets, UAscending;
    var es := t.entries;
    if i < |es| {
      assert es[i] in es && (i > 0 ==> es[i - 1] in es);
      WireRoundTrip(b, at, t, i);
      AscendingStep(es, i);
      UncompressedRoundTrip(b, at, t, i + 1);
    } else {
      NoOffsetsLeft(b, at, t);
    }
  }

  lemma NoOffsetsLeft(b: seq<byte>, at: nat, t: Table)
    requires HoldsOffsets(b, at, t)
    ensures at + USize(t.entries, t.est, |t.entries|) <= |b| && UAscending(t.entries, |t.entries|)
  {
  }

  /** One move of the predictor: half way toward the distance just coded. */
  lemma PredictorMove(p: int, d: int, limit: int)
    requires 0 <= p < limit && -limit < d < limit
    ensures -limit < p + Half(d - p) < limit && (d >= 0 ==> p + Half(d - p) >= 0)
  {
  }

  /** While the compressed offsets do not descend, the predictor is never negative and stays in
      range, so neither side's arithmetic can overflow. */
  lemma {:induction false} PredictorInRange(t: Table, i: nat)
    requires SmallTable(t) && i <= |t.entries|
    requires forall j :: 0 < j < i ==> t.entries[j - 1].compressed <= t.entries[j].compressed
    ensures 0 <= Predictor(t.entries, t.est, i) < 0x2000_0000_0000_0000
  {
    var es := t.entries;
    if i > 1 {
      PredictorInRange(t, i - 1);
      assert es[i - 1] in es && es[i - 2] in es;
      PredictorMove(Predictor(es, t.est, i - 1), es[i - 1].compressed - es[i - 2].compressed, 0x2000_0000_0000_0000);
    }
  }

  /** What both sides compute at entry `i` while the offsets ascended so far. */
  lemma CompressedStep(b: seq<byte>, at: nat, t: Table, i: nat)
    requires SmallTable(t) && i < |t.entries| && Holds(b, at, CompressedBytes(t.entries, t.est, |t.entries|))
    requires forall j :: 0 < j < i ==> t.entries[j - 1].compressed < t.entries[j].compressed
    ensures var es, p, wire := t.entries, Predictor(t.entries, t.est, i), CompressedWire(t.entries, t.est, i);
            && at + |CompressedBytes(es, t.est, i)| <= |b|
            && ReadVarint(b, at + |CompressedBytes(es, t.est, i)|) == Ok((wire, at + |CompressedBytes(es, t.est, i + 1)|))
            && (if i > 0 then CBefore(es, i) + p + wire else wire) == es[i].compressed
            && (if i > 0 then p + Half(wire) else p) == Predictor(es, t.est, i + 1)
            && I64(CBefore(es, i) + p) && I64(es[i].compressed) && I64(Predictor(es, t.est, i + 1))
  {
    hide Varint, ReadVarint, Half;
    var es := t.entries;
    assert es[i] in es && (i > 0 ==> es[i - 1] in es);
    PredictorInRange(t, i);
    if i > 0 {
      PredictorMove(Predictor(es, t.est, i), es[i].compressed - es[i - 1].compressed, 0x2000_0000_0000_0000);
    }
    HoldsCompressed(b, at, es, t.est, i, |es|);
    VarintRoundTrip(b, at + |CompressedBytes(es, t.est, i)|, CompressedWire(es, t.est, i));
  }

  /** The decoder at an entry whose varint it has read and whose values are in range. */
  lemma ReadsEntry(b: seq<byte>, at: nat, idx: nat, n: nat, predict: int, prev: nat, wire: int, next: nat, off: nat, moved: int)
    requires at <= |b| && idx < n && ReadVarint(b, at) == Ok((wire, next))
    requires off == (if idx > 0 then prev + predict + wire else wire) && moved == (if idx > 0 then predict + Half(wire) else predict)
    requires I64(prev + predict) && I64(off) && I64(moved)
    ensures next <= |b|
    ensures var r := ReadCompressed(b, next, idx + 1, n, moved, off);
            ReadCompressed(b, at, idx, n, predict, prev) ==
            if idx > 0 && off <= prev then Err(Invalid)
            else if r.Err? then r else Ok(([off] + r.value.0, r.value.1))
  {
    hide ReadVarint, I64, Half;
  }

  lemma CompressedEnd(b: seq<byte>, at: nat, t: Table)
    requires Holds(b, at, CompressedBytes(t.entries, t.est, |t.entries|))
    ensures var es, n := t.entries, |t.entries|;
            && at + |CompressedBytes(es, t.est, n)| <= |b| && CAscending(es, n)
            && ReadCompressed(b, at + |CompressedBytes(es, t.est, n)|, n, n, Predictor(es, t.est, n), CBefore(es, n)) ==
               Ok((CSuffix(es, n), at + |CompressedBytes(es, t.est, n)|))
  {
    hide CompressedBytes, Predictor;
  }

  /** The decoder's predictor when it reaches entry `i` is the encoder's, and reading on from there
      succeeds exactly when the compressed offsets keep ascending. */
  lemma {:induction false} CompressedRoundTrip(b: seq<byte>, at: nat, t: Table, i: nat)
    requires SmallTable(t) && i <= |t.entries| && Holds(b, at, CompressedBytes(t.entries, t.est, |t.entries|))
    requires forall j :: 0 < j < i ==> t.entries[j - 1].compressed < t.entries[j].compressed
    ensures var es := t.entries;
            && at + |CompressedBytes(es, t.est, i)| <= |b|
            && ReadCompressed(b, at + |CompressedBytes(es, t.est, i)|, i, |es|, Predictor(es, t.est, i), CBefore(es, i)) ==
               if CAscending(es, i) then Ok((CSuffix(es, i), at + |CompressedBytes(es, t.est, |es|)|)) else Err(Invalid)
    decreases |t.entries| - i
  {
    hide ReadVarint, ReadCompressed, CAscending, Half, Predictor, CompressedWire, CompressedBytes, I64, SmallTable, Holds;
    var es := t.entries;
    if i < |es| {
      CompressedStep(b, at, t, i);
      ReadsEntry(b, at + |CompressedBytes(es, t.est, i)|, i, |es|, Predictor(es, t.est, i), CBefore(es, i),
                 CompressedWire(es, t.est, i), at + |CompressedBytes(es, t.est, i + 1)|, es[i].compressed, Predictor(es, t.est, i + 1));
      AscendingStep(es, i);
      if i == 0 || es[i - 1].compressed < es[i].compressed {
        CompressedRoundTrip(b, at, t, i + 1);
      }
    } else {
      CompressedEnd(b, at, t);
    }
  }

  predicate FitsI64(v: Option<nat>) { v.Some? ==> v.value <= I64_MAX }

  lemma CountsRoundTrip(b: seq<byte>, at: nat, t: Table, totalU: Option<nat>, totalC: Option<nat>)
    requires SmallTable(t) && FitsI64(totalU) && FitsI64(totalC)
    requires at <= |b| && Holds(b, at, Counts(t, totalU, totalC))
    ensures ReadCounts(b, at) ==
            if totalU.None? then Err(Invalid)
            else Ok((totalU.value, totalC, t.est, |t.entries|, at + |Counts(t, totalU, totalC)|))
  {
    hide Varint, ReadVarint, SmallTable;
    var u, c, e, n := Varint(OptToWire(totalU)), Varint(OptToWire(totalC)), Varint(t.est), Varint(|t.entries|);
    SmallCounts(t);
    HoldsParts(b, at, u + c + e, n);
    HoldsParts(b, at, u + c, e);
    HoldsParts(b, at, u, c);
    VarintRoundTrip(b, at, OptToWire(totalU));
    VarintRoundTrip(b, at + |u|, OptToWire(totalC));
    VarintRoundTrip(b, at + |u + c|, t.est);
    VarintRoundTrip(b, at + |u + c + e|, |t.entries|);
  }

  lemma SmallCounts(t: Table)
    requires SmallTable(t)
    ensures t.est <= I64_MAX && |t.entries| <= MAX_INDEX_ENTRIES
  {
  }

  /** Where the parts of the offset lists are. */
  lemma OffsetsHeld(b: seq<byte>, at: nat, t: Table, size: nat)
    requires at <= |b| && Holds(b, at, Offsets(t) + Closing(size))
    ensures var es, n, u := t.entries, |t.entries|, at + 1 + USize(t.entries, t.est, |t.entries|);
            && at < |b| && b[at] == (if HasUncompressed(es, t.est) then 1 else 0)
            && HoldsOffsets(b, at + 1, t) && Holds(b, u, CompressedBytes(es, t.est, n))
            && Holds(b, u + |CompressedBytes(es, t.est, n)|, Closing(size))
            && u + |CompressedBytes(es, t.est, n)| == at + |Offsets(t)|
  {
    hide HasUncompressed, UncompressedBytes, CompressedBytes, Closing, Holds, Offsets;
    var es, n, has := t.entries, |t.entries|, HasUncompressed(t.entries, t.est);
    var flag: seq<byte> := if has then [1] else [0];
    var ub := if has then UncompressedBytes(es, t.est, n) else [];
    var cb := CompressedBytes(es, t.est, n);
    OffsetsParts(t);
    Regrouped(flag, ub, cb, Closing(size));
    HoldsParts(b, at, flag, ub + (cb + Closing(size)));
    HoldsOne(b, at, flag);
    HoldsParts(b, at + 1, ub, cb + Closing(size));
    HoldsParts(b, at + 1 + |ub|, cb, Closing(size));
  }

  lemma OffsetsParts(t: Table)
    ensures var n := |t.entries|;
            Offsets(t) == (if HasUncompressed(t.entries, t.est) then [1] else [0])
                          + (if HasUncompressed(t.entries, t.est) then UncompressedBytes(t.entries, t.est, n) else [])
                          + CompressedBytes(t.entries, t.est, n)
  {
    hide HasUncompressed, UncompressedBytes, CompressedBytes;
    assert [0] + [] == [0];
  }

  lemma Regrouped(a: seq<byte>, b: seq<byte>, c: seq<byte>, d: seq<byte>)
    ensures a + b + c + d == a + (b + (c + d))
  {
  }

  lemma HoldsOne(b: seq<byte>, at: nat, flag: seq<byte>)
    requires |flag| == 1 && Holds(b, at, flag)
    ensures at + 1 <= |b| && b[at] == flag[0]
  {
    assert b[at] == b[at..at + 1][0];
  }

  lemma OffsetsRoundTrip(b: seq<byte>, at: nat, t: Table, size: nat)
    requires SmallTable(t) && at <= |b| && Holds(b, at, Offsets(t) + Closing(size))
    ensures ReadOffsets(b, at, |t.entries|, t.est) ==
            if UAscending(t.entries, 0) && CAscending(t.entries, 0)
            then Ok((t.entries, at + |Offsets(t)| + |Closing(size)|)) else Err(Invalid)
  {
    hide ReadUncompressed, ReadCompressed, HasUncompressed, SmallTable, UAscending, CAscending, Holds, HoldsOffsets,
         UncompressedBytes, CompressedBytes, Zip, USuffix, CSuffix, Closing, Offsets, USize, Predictor;
    var es := t.entries;
    OffsetsHeld(b, at, t, size);
    FirstOffsets(t);
    var u := at + 1 + USize(es, t.est, |es|);
    UncompressedRoundTrip(b, at + 1, t, 0);
    CompressedRoundTrip(b, u, t, 0);
    ClosingHeld(b, at + |Offsets(t)|, size);
    ZipSuffixes(es, 0);
  }

  lemma FirstOffsets(t: Table)
    ensures USize(t.entries, t.est, 0) == 0 && |CompressedBytes(t.entries, t.est, 0)| == 0
    ensures Predictor(t.entries, t.est, 0) == t.est / 2 && t.entries[0..] == t.entries
  {
  }

  lemma ClosingHeld(b: seq<byte>, at: nat, size: nat)
    requires Holds(b, at, Closing(size))
    ensures |Closing(size)| == 4 + |INDEX_TRAILER| && at + 4 + |INDEX_TRAILER| <= |b|
    ensures b[at + 4..at + 4 + |INDEX_TRAILER|] == INDEX_TRAILER
  {
    HoldsParts(b, at, Le32Bytes(size), INDEX_TRAILER);
  }

  lemma Le24AtMost(v: nat)
    ensures Le24(Le24Bytes(v), 0) == v % 0x100_0000
  {
    assert v / 0x1_0000 == v / 0x100 / 0x100;
  }

  /** An enveloped payload at the start of `b`: its parts and their positions. */
  lemma EnvelopeHeld(b: seq<byte>, payload: seq<byte>)
    requires Holds(b, 0, Envelope(payload))
    ensures var size := |payload| + 20;
            && |b| >= size && b[0] == CHUNK_TYPE_INDEX && Le24(b, 1) == (size - 4) % 0x100_0000
            && b[4..10] == INDEX_HEADER && Holds(b, 10, payload + Closing(size))
            && |Envelope(payload)| == size && b[10..10 + |payload|] == payload
            && b[14 + |payload|..size] == INDEX_TRAILER
  {
    var size := |payload| + 20;
    var e := Envelope(payload);
    assert b[0..|e|] == e;
    assert b[0] == e[0] && b[1] == e[1] && b[2] == e[2] && b[3] == e[3];
    Le24AtMost(size - 4);
    assert b[4..10] == e[4..10] == INDEX_HEADER;
    assert e == e[..10] + (payload + Closing(size));
    HoldsParts(b, 0, e[..10], payload + Closing(size));
    HoldsParts(b, 10, payload, Closing(size));
    ClosingHeld(b, 10 + |payload|, size);
  }

  /** `load` of what `append_to` wrote, whatever follows it: the same totals, spacing and entries,
      and the tail, exactly when the uncompressed total was known and both offsets strictly ascend;
      otherwise the index is refused. */
  lemma IndexRoundTrip(t: Table, totalU: Option<nat>, totalC: Option<nat>, rest: seq<byte>)
    requires SmallTable(t) && FitsI64(totalU) && FitsI64(totalC)
    ensures var chunk := Serialize(t, totalU, totalC);
            Parse(chunk + rest) ==
            if totalU.Some? && UAscending(t.entries, 0) && CAscending(t.entries, 0)
            then Ok((Loaded(totalU.value, totalC, t), |chunk|)) else Err(Invalid)
  {
    hide ReadCounts, ReadOffsets, SmallTable, UAscending, CAscending, Counts, Offsets, Closing, Envelope, Le24;
    var payload := Payload(t, totalU, totalC);
    var b, size := Envelope(payload) + rest, |payload| + 20;
    assert b[0..|Envelope(payload)|] == Envelope(payload);
    EnvelopeHeld(b, payload);
    var counts := Counts(t, totalU, totalC);
    assert payload + Closing(size) == counts + (Offsets(t) + Closing(size));
    HoldsParts(b, 10, counts, Offsets(t) + Closing(size));
    CountsRoundTrip(b, 10, t, totalU, totalC);
    if totalU.Some? {
      OffsetsRoundTrip(b, 10 + |counts|, t, size);
      assert |payload| == |counts| + |Offsets(t)|;
      ClosingLength(size);
    }
  }

  /** `add` only refuses descending compressed offsets, so a table with two entries at the same one
      can be built; it is written, and then refused when it is loaded. */
  lemma EqualCompressedRefused(rest: seq<byte>)
    ensures var p, q := OffsetPair(0, 0), OffsetPair(0, 1);
            var t := Table([p, q], 1);
            && AddAll(Table([], 1), [p, q]) == Ok(t)
            && Parse(Serialize(t, Some(2), Some(0)) + rest) == Err(Invalid)
  {
    hide Parse, Serialize, Thin;
    var p, q := OffsetPair(0, 0), OffsetPair(0, 1);
    var t := Table([p, q], 1);
    assert [p, q][..1] == [p] && [p][..0] == [];
    assert AddAll(Table([], 1), [p]) == Ok(Table([p], 1)) by {
      assert AddAll(Table([], 1), []) == Ok(Table([], 1));
      assert [] + [p] == [p];
    }
    assert [p] + [q] == [p, q];
    assert t.entries[0].compressed == t.entries[1].compressed;
    IndexRoundTrip(t, Some(2), Some(0), rest);
  }

  lemma ClosingLength(size: nat)
    ensures |Closing(size)| == 10
  {
  }

  /** The longest chunk the stream format allows, header included. */
  const MAX_INDEX_CHUNK: nat := 0xff_ffff + 4

  /** Where the index at the end of `data` starts, found through its trailer. */
  function TailStart(data: seq<byte>): Result<nat, Error> {
    if |data| < 10 then Err(Io)
    else if data[|data| - 6..] != INDEX_TRAILER then Err(BadFormat)
    else
      var size := Le32(data, |data| - 10);
      if size > MAX_INDEX_CHUNK then Err(Invalid) else if size > |data| then Err(Io) else Ok(|data| - size)
  }

  /** An index appended to anything is found from the end. */
  lemma TailFindsIndex(before: seq<byte>, payload: seq<byte>)
    requires |payload| + 16 < 0x100_0000
    ensures TailStart(before + Envelope(payload)) == Ok(|before|)
    ensures (before + Envelope(payload))[|before|..] == Envelope(payload)
  {
    hide Le24;
    var data, e, size := before + Envelope(payload), Envelope(payload), |payload| + 20;
    assert e == e[..10 + |payload|] + Closing(size);
    assert data[|data| - 6..] == e[|e| - 6..] == INDEX_TRAILER;
    assert data[|data| - 10..|data| - 6] == Le32Bytes(size);
    Le32RoundTrip(size);
    SameWord(data, |data| - 10, Le32Bytes(size));
  }

  lemma SameWord(b: seq<byte>, i: nat, w: seq<byte>)
    requires i + 4 <= |b| && |w| == 4 && b[i..i + 4] == w
    ensures Le32(b, i) == Le32(w, 0)
  {
    assert b[i] == w[0] && b[i + 1] == w[1] && b[i + 2] == w[2] && b[i + 3] == w[3];
  }

  // -------- the bare payload --------

  function RemoveIndexHeaders(b: seq<byte>): Option<seq<byte>> {
    if |b| <= 4 + |INDEX_HEADER| + |INDEX_TRAILER| + 4 || b[0] != CHUNK_TYPE_INDEX then None
    else
      var len := Le24(b, 1);
      if |b| - 4 < len then None
      else
        var chunk := b[4..4 + len];
        if len < |INDEX_HEADER| || chunk[..|INDEX_HEADER|] != INDEX_HEADER then None
        else
          var body := chunk[|INDEX_HEADER|..];
          if |body| < |INDEX_TRAILER| || body[|body| - |INDEX_TRAILER|..] != INDEX_TRAILER then None
          else if |body| < |INDEX_TRAILER| + 4 then None
          else Some(body[..|body| - |INDEX_TRAILER| - 4])
  }

  function RestoreIndexHeaders(payload: seq<byte>): seq<byte> {
    if payload == [] then [] else Envelope(payload)
  }

  lemma RemoveEnvelope(payload: seq<byte>)
    requires |payload| + 16 < 0x100_0000 && payload != []
    ensures RemoveIndexHeaders(Envelope(payload)) == Some(payload)
  {
    hide Envelope, Le24;
    var b := Envelope(payload);
    EnvelopeHeld(b, payload);
    hide Closing;
    var chunk := b[4..|payload| + 20];
    assert chunk[..6] == b[4..10];
    var body := chunk[6..];
    assert body[..|body| - 10] == b[10..10 + |payload|];
    assert body[|body| - 6..] == b[14 + |payload|..];
  }

  /** A longer payload overflows the chunk length, and less of it comes back. */
  lemma RemoveTruncates(payload: seq<byte>)
    requires |payload| + 16 >= 0x100_0000
    ensures RemoveIndexHeaders(Envelope(payload)) != Some(payload)
  {
    hide Envelope, Le24;
    EnvelopeHeld(Envelope(payload), payload);
  }

  /** Restoring and removing are inverse exactly on non-empty payloads whose chunk length fits its
      three bytes. */
  lemma RemoveAfterRestore(payload: seq<byte>)
    ensures RemoveIndexHeaders(RestoreIndexHeaders(payload)) == Some(payload) <==>
            payload != [] && |payload| + 16 < 0x100_0000
    ensures payload != [] && |payload| + 16 < 0x100_0000 ==>
            RestoreIndexHeaders(RemoveIndexHeaders(Envelope(payload)).value) == Envelope(payload)
  {
    hide Envelope;
    if payload != [] {
      if |payload| + 16 < 0x100_0000 {
        RemoveEnvelope(payload);
      } else {
        RemoveTruncates(payload);
      }
    }
  }

  lemma UvarintAtMostTen(v: nat)
    requires v < U64
    ensures |Uvarint(v)| <= MAX_VARINT_LEN_64
  {
    UvarintRoundTrip(Uvarint(v), 0, v);
  }

  lemma {:induction false} OffsetsLength(t: Table, n: nat)
    requires SmallTable(t) && n <= |t.entries| && CAscending(t.entries, 0)
    ensures |UncompressedBytes(t.entries, t.est, n)| <= 10 * n
    ensures |CompressedBytes(t.entries, t.est, n)| <= 10 * n
  {
    hide Uvarint;
    if n > 0 {
      var es := t.entries;
      assert es[n - 1] in es && (n > 1 ==> es[n - 2] in es);
      OffsetsLength(t, n - 1);
      PredictorInRange(t, n - 1);
      UvarintAtMostTen(Zigzag(UncompressedWire(es, t.est, n - 1)));
      UvarintAtMostTen(Zigzag(CompressedWire(es, t.est, n - 1)));
    }
  }

  lemma PayloadLength(t: Table, totalU: Option<nat>, totalC: Option<nat>)
    requires SmallTable(t) && FitsI64(totalU) && FitsI64(totalC) && CAscending(t.entries, 0)
    ensures 0 < |Payload(t, totalU, totalC)| <= 41 + 20 * |t.entries|
  {
    hide Uvarint, UncompressedBytes, CompressedBytes, CAscending;
    OffsetsLength(t, |t.entries|);
    UvarintAtMostTen(Zigzag(OptToWire(totalU)));
    UvarintAtMostTen(Zigzag(OptToWire(totalC)));
    UvarintAtMostTen(Zigzag(t.est));
    UvarintAtMostTen(Zigzag(|t.entries|));
  }

  /** A chunk that `append_to` wrote survives being stripped and wrapped again. */
  lemma StrippedChunkRestores(t: Table, totalU: Option<nat>, totalC: Option<nat>)
    requires SmallTable(t) && FitsI64(totalU) && FitsI64(totalC) && CAscending(t.entries, 0)
    ensures var chunk := Serialize(t, totalU, totalC);
            && RemoveIndexHeaders(chunk) == Some(Payload(t, totalU, totalC))
            && RestoreIndexHeaders(Payload(t, totalU, totalC)) == chunk
  {
    hide Payload, Envelope, RemoveIndexHeaders, CAscending;
    PayloadLength(t, totalU, totalC);
    RemoveAfterRestore(Payload(t, totalU, totalC));
  }
}
