/** Bytes, little-endian fields and the unsigned LEB128 codec shared by the block format,
    the stream format and the index. */
module Bytes {

  type byte = x: int | 0 <= x < 0x100

  datatype Option<+T> = None | Some(value: T)

  datatype Result<+T, +E> = Ok(value: T) | Err(error: E)

  const U64 := 0x1_0000_0000_0000_0000
  const MAX_VARINT_LEN_64 := 10

  function SaturatingSub(a: nat, b: nat): nat { if a >= b then a - b else 0 }

  function Le16(b: seq<byte>, i: nat): nat
    requires i + 2 <= |b|
  {
    b[i] as nat + 0x100 * b[i+1] as nat
  }

  function Le24(b: seq<byte>, i: nat): nat
    requires i + 3 <= |b|
  {
    Le16(b, i) + 0x1_0000 * b[i+2] as nat
  }

  function Le32(b: seq<byte>, i: nat): nat
    requires i + 4 <= |b|
  {
    Le24(b, i) + 0x100_0000 * b[i+3] as nat
  }

  /** The low 8 bits, as a Rust `as u8` cast keeps them. */
  function Low8(v: nat): byte { v % 0x100 }

  function Le16Bytes(v: nat): seq<byte> { [Low8(v), Low8(v / 0x100)] }

  function Le24Bytes(v: nat): seq<byte> { [Low8(v), Low8(v / 0x100), Low8(v / 0x1_0000)] }

  function Le32Bytes(v: nat): seq<byte> {
    [Low8(v), Low8(v / 0x100), Low8(v / 0x1_0000), Low8(v / 0x100_0000)]
  }

  lemma Le16RoundTrip(v: nat)
    requires v < 0x1_0000
    ensures Le16(Le16Bytes(v), 0) == v
  {
  }

  lemma Le24RoundTrip(v: nat)
    requires v < 0x100_0000
    ensures Le24(Le24Bytes(v), 0) == v
  {
    assert v / 0x1_0000 == v / 0x100 / 0x100;
  }

  lemma Le32RoundTrip(v: nat)
    requires v < 0x1_0000_0000
    ensures Le32(Le32Bytes(v), 0) == v
  {
    assert v / 0x1_0000 == v / 0x100 / 0x100;
    assert v / 0x100_0000 == v / 0x100 / 0x100 / 0x100;
  }

  /** Quotient and remainder are unique. */
  lemma DivMod(w: nat, m: nat, q: nat, r: nat)
    requires r < m && w == q * m + r
    ensures w / m == q && w % m == r
  {
    var d: int, k: int := q - w / m, m;
    assert d * k == w % m - r;
    assert d >= 1 ==> d * k >= k;
    assert d <= -1 ==> d * k <= -k;
  }

  /** The number of significant bits, `BITS - leading_zeros`. */
  function BitLength(v: nat): nat { if v == 0 then 0 else 1 + BitLength(v / 2) }

  function Pow2(k: nat): (r: nat)
    ensures r >= 1
  {
    if k == 0 then 1 else 2 * Pow2(k - 1)
  }

  lemma {:induction false} Pow2Grows(k: nat, m: nat)
    requires k <= m
    ensures Pow2(k) <= Pow2(m)
    decreases m - k
  {
    if k < m {
      Pow2Grows(k, m - 1);
    }
  }

  lemma Pow2Double(k: nat)
    ensures Pow2(0) == 1 && (k >= 1 ==> Pow2(k) == 2 * Pow2(k - 1))
  {
  }

  lemma {:induction false} BitLengthFits(v: nat, k: nat)
    ensures BitLength(v) <= k <==> v < Pow2(k)
    decreases k
  {
    if v > 0 && k > 0 {
      BitLengthFits(v / 2, k - 1);
    }
  }

  // -------- unsigned LEB128 --------

  /** The encoding: seven bits at a time, low bits first, high bit set on all but the last byte. */
  function Uvarint(v: nat): (b: seq<byte>)
    ensures |b| >= 1
  {
    if v < 0x80 then [v] else [v % 0x80 + 0x80] + Uvarint(v / 0x80)
  }

  /** Decodes the varint starting at `at`, of which `i` bytes were already read; returns the value
      of the rest and the position after it.  `None` means truncated or over 64 bits. */
  function ReadUvarintFrom(b: seq<byte>, at: nat, i: nat): (r: Option<(nat, nat)>)
    requires at <= |b| && i <= MAX_VARINT_LEN_64
    ensures r.Some? ==> at < r.value.1 <= |b| && r.value.1 - at + i <= MAX_VARINT_LEN_64
    ensures r.Some? ==> r.value.0 < Room(i)
    decreases |b| - at
  {
    if at == |b| || i == MAX_VARINT_LEN_64 then None
    else if b[at] < 0x80 then
      if i == MAX_VARINT_LEN_64 - 1 && b[at] > 1 then None else Some((b[at], at + 1))
    else
      var r := ReadUvarintFrom(b, at + 1, i + 1);
      if r.None? then None else Some((b[at] - 0x80 + 0x80 * r.value.0, r.value.1))
  }

  function ReadUvarint(b: seq<byte>, at: nat): (r: Option<(nat, nat)>)
    requires at <= |b|
    ensures r.Some? ==> at < r.value.1 <= |b| && r.value.1 - at <= MAX_VARINT_LEN_64
    ensures r.Some? ==> r.value.0 < U64
  {
    ReadUvarintFrom(b, at, 0)
  }

  /** One more than the largest value that still fits in 64 bits after `i` bytes. */
  function Room(i: nat): (r: nat)
    requires i <= MAX_VARINT_LEN_64
    ensures i < MAX_VARINT_LEN_64 ==> r >= 2
    decreases MAX_VARINT_LEN_64 - i
  {
    if i == MAX_VARINT_LEN_64 then 0 else if i == MAX_VARINT_LEN_64 - 1 then 2 else 0x80 * Room(i + 1)
  }

  /** Whatever precedes and follows it, an encoded 64-bit value reads back as itself and the reader
      stops right after it. */
  lemma {:induction false} UvarintRoundTripFrom(b: seq<byte>, at: nat, i: nat, v: nat)
    requires i < MAX_VARINT_LEN_64 && v < Room(i)
    requires at + |Uvarint(v)| <= |b| && b[at..at + |Uvarint(v)|] == Uvarint(v)
    ensures ReadUvarintFrom(b, at, i) == Some((v, at + |Uvarint(v)|))
    ensures i + |Uvarint(v)| <= MAX_VARINT_LEN_64
    decreases v
  {
    assert b[at] == Uvarint(v)[0];
    if v >= 0x80 {
      var rest := Uvarint(v / 0x80);
      assert b[at + 1..at + 1 + |rest|] == b[at..at + |Uvarint(v)|][1..] == rest;
      UvarintRoundTripFrom(b, at + 1, i + 1, v / 0x80);
    }
  }

  lemma UvarintRoundTrip(b: seq<byte>, at: nat, v: nat)
    requires v < U64
    requires at + |Uvarint(v)| <= |b| && b[at..at + |Uvarint(v)|] == Uvarint(v)
    ensures ReadUvarint(b, at) == Some((v, at + |Uvarint(v)|))
    ensures |Uvarint(v)| <= MAX_VARINT_LEN_64
  {
    UvarintRoundTripFrom(b, at, 0, v);
  }

  /** How many bytes the lengths used by the block format take. */
  lemma UvarintLength(v: nat)
    requires v < 0x1000_0000
    ensures |Uvarint(v)| == if v < 0x80 then 1 else if v < 0x4000 then 2 else if v < 0x20_0000 then 3 else 4
  {
    assert |Uvarint(v / 0x80 / 0x80 / 0x80)| == 1;
    if v >= 0x80 {
      assert |Uvarint(v)| == 1 + |Uvarint(v / 0x80)|;
      if v >= 0x4000 {
        assert |Uvarint(v / 0x80)| == 1 + |Uvarint(v / 0x80 / 0x80)|;
      }
    }
  }

  /** All bytes but the last have their high bit set; three of them if the value needs four bytes. */
  lemma {:induction false} UvarintShape(v: nat)
    ensures var b := Uvarint(v);
            && (forall i :: 0 <= i < |b| - 1 ==> b[i] >= 0x80) && b[|b| - 1] < 0x80
            && (v >= 0x20_0000 ==> |b| >= 4)
    decreases v
  {
    if v >= 0x80 {
      UvarintShape(v / 0x80);
      assert Uvarint(v) == [v % 0x80 + 0x80] + Uvarint(v / 0x80);
      if v >= 0x20_0000 {
        assert |Uvarint(v / 0x80)| == 1 + |Uvarint(v / 0x80 / 0x80)|;
        assert |Uvarint(v / 0x80 / 0x80)| == 1 + |Uvarint(v / 0x80 / 0x80 / 0x80)|;
      }
    }
  }

  method PutUvarint(dst: seq<byte>, value: nat) returns (r: seq<byte>)
    requires value < U64
    ensures r == dst + Uvarint(value)
  {
    var v := value;
    r := dst;
    while v >= 0x80
      invariant r + Uvarint(v) == dst + Uvarint(value)
    {
      assert Uvarint(v) == [v % 0x80 + 0x80] + Uvarint(v / 0x80);
      r := r + [v % 0x80 + 0x80];
      v := v / 0x80;
    }
    r := r + [v];
  }

  /** `r`, scaled by `weight` and moved up by `x`. */
  function Lifted(x: nat, weight: nat, r: Option<(nat, nat)>): Option<(nat, nat)> {
    if r.None? then None else Some((x + Scaled(weight, r.value.0), r.value.1))
  }

  function Scaled(weight: nat, v: nat): nat { weight * v }

  /** One byte of the decoding loop. */
  lemma LiftedStep(src: seq<byte>, p: nat, i: nat, x: nat, weight: nat)
    requires p <= |src| && i <= MAX_VARINT_LEN_64
    ensures Lifted(x, weight, ReadUvarintFrom(src, p, i)) ==
            if p == |src| || i == MAX_VARINT_LEN_64 then None
            else if src[p] >= 0x80 then
              Lifted(x + Scaled(weight, src[p] % 0x80), weight * 0x80, ReadUvarintFrom(src, p + 1, i + 1))
            else if i == MAX_VARINT_LEN_64 - 1 && src[p] > 1 then None
            else Some((x + Scaled(weight, src[p]), p + 1))
  {
    if p < |src| && i < MAX_VARINT_LEN_64 && src[p] >= 0x80 {
      var r := ReadUvarintFrom(src, p + 1, i + 1);
      if r.Some? {
        var digit: nat, rest := src[p] % 0x80, r.value.0;
        assert weight * (digit + 0x80 * rest) == weight * digit + weight * 0x80 * rest;
      }
    }
  }

  lemma LiftedOnce(r: Option<(nat, nat)>)
    ensures Lifted(0, 1, r) == r
  {
  }

  method GetUvarint(src: seq<byte>, at: nat) returns (r: Option<(nat, nat)>)
    requires at <= |src|
    ensures r == ReadUvarint(src, at)
  {
    hide Scaled, Lifted, ReadUvarintFrom;
    var x: nat, weight: nat, i: nat := 0, 1, 0;
    LiftedOnce(ReadUvarintFrom(src, at, 0));
    while at + i < |src|
      invariant at + i <= |src| && i <= MAX_VARINT_LEN_64
      invariant ReadUvarint(src, at) == Lifted(x, weight, ReadUvarintFrom(src, at + i, i))
    {
      var b := src[at + i];
      LiftedStep(src, at + i, i, x, weight);
      if i == MAX_VARINT_LEN_64 {
        return None;
      }
      if b < 0x80 {
        if i == MAX_VARINT_LEN_64 - 1 && b > 1 {
          return None;
        }
        return Some((x + Scaled(weight, b), at + i + 1));
      }
      x, weight, i := x + Scaled(weight, b % 0x80), weight * 0x80, i + 1;
    }
    LiftedStep(src, at + i, i, x, weight);
    return None;
  }
}
