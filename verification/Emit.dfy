/** Encoding primitives: the bytes of each tag, the stores that write them, and the sizes the L3
    encoder predicts for them.  Shifts and `|` of disjoint bit fields are written as products and
    sums. */
module Emit {
  import opened Bytes
  import opened BlockSpec

  const MAX_LITERAL: nat := 16_777_245

  // -------- tag bytes --------

  function LiteralHeader(length: nat): (b: seq<byte>)
    requires 1 <= length <= MAX_LITERAL
    ensures 1 <= |b| <= 4
  {
    var n := length - 1;
    if n <= 28 then [n * 8 + TAG_LITERAL]
    else if n <= 283 then [29 * 8 + TAG_LITERAL, n - 29]
    else if n <= 65564 then [30 * 8 + TAG_LITERAL] + Le16Bytes(n - 29)
    else [31 * 8 + TAG_LITERAL] + Le24Bytes(n - 29)
  }

  function LiteralBytes(lit: seq<byte>): seq<byte>
    requires |lit| <= MAX_LITERAL
  {
    if |lit| == 0 then [] else LiteralHeader(|lit|) + lit
  }

  function RepeatBytes(length: nat): (b: seq<byte>)
    requires length >= 1
    ensures 1 <= |b| <= 4
  {
    if length < 30 then [(length - 1) * 8 + TAG_REPEAT]
    else
      var l := length - 30;
      if l < 0x100 then [29 * 8 + TAG_REPEAT, l]
      else if l < 0x1_0000 then [30 * 8 + TAG_REPEAT] + Le16Bytes(l)
      else [31 * 8 + TAG_REPEAT] + Le24Bytes(l)
  }

  function Copy2Bytes(offset: nat, length: nat): (b: seq<byte>)
    requires MIN_COPY2_OFFSET <= offset && length >= 4
    ensures 3 <= |b| <= 6
  {
    var field, l := Le16Bytes(offset - MIN_COPY2_OFFSET), length - 4;
    if l <= 60 then [l * 4 + TAG_COPY2] + field
    else
      var m := l - 60;
      if m < 0x100 then [61 * 4 + TAG_COPY2] + field + [m]
      else if m < 0x1_0000 then [62 * 4 + TAG_COPY2] + field + Le16Bytes(m)
      else [63 * 4 + TAG_COPY2] + field + Le24Bytes(m)
  }

  /** A Copy3 tag announcing `lits` fused literals, which the caller appends. */
  function Copy3Bytes(offset: nat, length: nat, lits: nat): (b: seq<byte>)
    requires MIN_COPY3_OFFSET <= offset && length >= 4 && lits <= MAX_COPY3_LITS
    ensures 4 <= |b| <= 7
  {
    var base, l := (offset - MIN_COPY3_OFFSET) * 2048 + TAG_COPY3 + lits * 8, length - 4;
    if l <= 60 then Le32Bytes(base + l * 32)
    else
      var m := l - 60;
      if m < 0x100 then Le32Bytes(base + 61 * 32) + [m]
      else if m < 0x1_0000 then Le32Bytes(base + 62 * 32) + Le16Bytes(m)
      else Le32Bytes(base + 63 * 32) + Le24Bytes(m)
  }

  /** The smallest copy encoding; a long Copy1 is a maximal one chained with a repeat. */
  function CopyBytes(offset: nat, length: nat): (b: seq<byte>)
    requires offset >= 1 && length >= 4
    ensures 2 <= |b| <= 7
  {
    if offset > MAX_COPY2_OFFSET then Copy3Bytes(offset, length, 0)
    else if offset <= MAX_COPY1_OFFSET then
      var off := offset - 1;
      if length < 15 + 4 then Le16Bytes(off * 64 + (length - 4) * 4 + TAG_COPY1)
      else if length < 256 + 18 then Le16Bytes(off * 64 + 15 * 4 + TAG_COPY1) + [length - 18]
      else Le16Bytes(off * 64 + 14 * 4 + TAG_COPY1) + RepeatBytes(length - 18)
    else Copy2Bytes(offset, length)
  }

  /** A Copy2 fused with literals; past length 11 the rest is chained as a repeat. */
  function CopyLits2Bytes(lits: seq<byte>, offset: nat, length: nat): (b: seq<byte>)
    requires MIN_COPY2_OFFSET <= offset && 1 <= |lits| <= MAX_COPY2_LITS && length >= 4
    ensures 4 <= |b| <= 3 + |lits| + 4
  {
    var field, raw := Le16Bytes(offset - MIN_COPY2_OFFSET), length - 4;
    if raw > COPY2_LIT_MAX_LEN - 4 then
      [TAG_COPY2_FUSED + 7 * 32 + (|lits| - 1) * 8] + field + lits + RepeatBytes(raw - 7)
    else [TAG_COPY2_FUSED + raw * 32 + (|lits| - 1) * 8] + field + lits
  }

  function CopyLits3Bytes(lits: seq<byte>, offset: nat, length: nat): (b: seq<byte>)
    requires MIN_COPY3_OFFSET <= offset && 1 <= |lits| <= MAX_COPY3_LITS && length >= 4
    ensures 5 <= |b| <= 7 + |lits|
  {
    Copy3Bytes(offset, length, |lits|) + lits
  }

  // -------- each emission parses back to its intended effect --------

  lemma RunOneTag(b: seq<byte>, op: Op, st: State)
    requires |b| > 0 && ParseAt(b, 0) == Tag(op, |b|)
    ensures Run(b, 0, st) == Step(st, op)
  {
    hide ParseAt;
    var st' := Step(st, op);
    if st'.Some? {
      assert Run(b, |b|, st'.value) == st';
    }
  }

  lemma LiteralLength(b: seq<byte>, length: nat)
    requires 1 <= length <= MAX_LITERAL && LiteralHeader(length) <= b
    ensures b[0] % 4 == 0 && b[0] / 4 % 2 == 0
    ensures LengthAt(b, 1, b[0] / 8, 29, 1, 30) == Some((length, |LiteralHeader(length)|))
  {
    var n := length - 1;
    if 283 < n <= 65564 {
      Le16RoundTrip(n - 29);
      assert Le16(b, 1) == Le16(Le16Bytes(n - 29), 0);
    } else if n > 65564 {
      Le24RoundTrip(n - 29);
      assert Le24(b, 1) == Le24(Le24Bytes(n - 29), 0);
    }
  }

  lemma After(h: seq<byte>, rest: seq<byte>)
    ensures |h + rest| == |h| + |rest| && (h + rest)[|h|..|h| + |rest|] == rest
  {
  }

  lemma ParseLiteral(lit: seq<byte>)
    requires 1 <= |lit| <= MAX_LITERAL
    ensures ParseAt(LiteralBytes(lit), 0) == Tag(Literal(lit), |LiteralBytes(lit)|)
  {
    var b, h := LiteralBytes(lit), LiteralHeader(|lit|);
    LiteralLength(b, |lit|);
    hide LiteralHeader, LengthAt;
    After(h, lit);
    assert ParseAt(b, 0) == ParseLiteralOrRepeat(b, 0);
  }

  lemma ParseRepeat(length: nat)
    requires 1 <= length < 0x100_0000
    ensures ParseAt(RepeatBytes(length), 0) == Tag(Repeat(length), |RepeatBytes(length)|)
  {
    var b, l := RepeatBytes(length), length - 30;
    if 0x100 <= l < 0x1_0000 {
      Le16RoundTrip(l);
      assert Le16(b, 1) == Le16(Le16Bytes(l), 0);
    } else if l >= 0x1_0000 {
      Le24RoundTrip(l);
      assert Le24(b, 1) == Le24(Le24Bytes(l), 0);
    }
  }

  lemma ParseCopy2Bytes(offset: nat, length: nat)
    requires MIN_COPY2_OFFSET <= offset <= MAX_COPY2_OFFSET && 4 <= length < 0x100_0000
    ensures ParseAt(Copy2Bytes(offset, length), 0) == Tag(Copy([], offset, length), |Copy2Bytes(offset, length)|)
  {
    var b, f, m := Copy2Bytes(offset, length), offset - MIN_COPY2_OFFSET, length - 64;
    Le16RoundTrip(f);
    assert Le16(b, 1) == Le16(Le16Bytes(f), 0);
    if 0x100 <= m < 0x1_0000 {
      Le16RoundTrip(m);
      assert Le16(b, 3) == Le16(Le16Bytes(m), 0);
    } else if m >= 0x1_0000 {
      Le24RoundTrip(m);
      assert Le24(b, 3) == Le24(Le24Bytes(m), 0);
    }
  }

  lemma Copy3Word(o: nat, code: nat, lits: nat, w: nat)
    requires code < 64 && lits < 4 && w == o * 2048 + code * 32 + lits * 8 + TAG_COPY3
    ensures w / 2048 == o && w / 32 % 64 == code
    ensures w % 0x100 % 4 == 3 && w % 0x100 / 4 % 2 == 1 && w % 0x100 / 8 % 4 == lits
  {
    var high, low := code / 8, code % 8;
    var lowByte := low * 32 + lits * 8 + TAG_COPY3;
    DivMod(w, 2048, o, code * 32 + lits * 8 + TAG_COPY3);
    DivMod(w, 32, o * 64 + code, lits * 8 + TAG_COPY3);
    DivMod(o * 64 + code, 64, o, code);
    DivMod(w, 0x100, o * 8 + high, lowByte);
    Copy3LowByte(low, lits);
  }

  lemma Copy3LowByte(low: nat, lits: nat)
    requires low < 8 && lits < 4
    ensures var b := low * 32 + lits * 8 + TAG_COPY3; b % 4 == 3 && b / 4 % 2 == 1 && b / 8 % 4 == lits
  {
    var b := low * 32 + lits * 8 + TAG_COPY3;
    DivMod(b, 4, low * 8 + lits * 2 + 1, 3);
    DivMod(low * 8 + lits * 2 + 1, 2, low * 4 + lits, 1);
    DivMod(b, 8, low * 4 + lits, 7);
    DivMod(low * 4 + lits, 4, low, lits);
  }

  /** The four fields of a Copy3 word are recovered from its little-endian bytes. */
  lemma Copy3Fields(b: seq<byte>, offset: nat, code: nat, lits: nat)
    requires MIN_COPY3_OFFSET <= offset <= MAX_COPY3_OFFSET && code < 64 && lits <= MAX_COPY3_LITS
    requires Le32Bytes((offset - MIN_COPY3_OFFSET) * 2048 + TAG_COPY3 + lits * 8 + code * 32) <= b
    ensures b[0] % 4 == 3 && b[0] / 4 % 2 == 1 && b[0] as nat / 8 % 4 == lits
    ensures Le32(b, 0) / 32 % 64 == code && Le32(b, 0) / 2048 + MIN_COPY3_OFFSET == offset
  {
    var w := (offset - MIN_COPY3_OFFSET) * 2048 + TAG_COPY3 + lits * 8 + code * 32;
    Le32RoundTrip(w);
    Copy3Word(offset - MIN_COPY3_OFFSET, code, lits, w);
    assert Le32(b, 0) == Le32(Le32Bytes(w), 0);
    assert b[0] == Le32Bytes(w)[0];
  }

  lemma Copy3Length(b: seq<byte>, offset: nat, length: nat, lits: nat)
    requires MIN_COPY3_OFFSET <= offset <= MAX_COPY3_OFFSET && 4 <= length < 0x100_0000
    requires lits <= MAX_COPY3_LITS && Copy3Bytes(offset, length, lits) <= b
    ensures b[0] % 4 == 3 && b[0] / 4 % 2 == 1 && b[0] as nat / 8 % 4 == lits
    ensures Le32(b, 0) / 2048 + MIN_COPY3_OFFSET == offset
    ensures LengthAt(b, 4, Le32(b, 0) / 32 % 64, 61, 4, 64) == Some((length, |Copy3Bytes(offset, length, lits)|))
  {
    var m := length - 64;
    var code := if m <= 0 then length - 4 else if m < 0x100 then 61 else if m < 0x1_0000 then 62 else 63;
    Copy3Fields(b, offset, code, lits);
    if 0x100 <= m < 0x1_0000 {
      Le16RoundTrip(m);
      assert Le16(b, 4) == Le16(Le16Bytes(m), 0);
    } else if m >= 0x1_0000 {
      Le24RoundTrip(m);
      assert Le24(b, 4) == Le24(Le24Bytes(m), 0);
    }
  }

  lemma ParseCopy3Bytes(lits: seq<byte>, offset: nat, length: nat)
    requires MIN_COPY3_OFFSET <= offset <= MAX_COPY3_OFFSET && 4 <= length < 0x100_0000
    requires |lits| <= MAX_COPY3_LITS
    ensures var b := Copy3Bytes(offset, length, |lits|) + lits;
            ParseAt(b, 0) == Tag(Copy(lits, offset, length), |b|)
  {
    var h := Copy3Bytes(offset, length, |lits|);
    var b := h + lits;
    Copy3Length(b, offset, length, |lits|);
    hide Copy3Bytes, LengthAt;
    assert b[|h|..|h| + |lits|] == lits;
    assert ParseAt(b, 0) == ParseFused(b, 0);
  }

  lemma Copy1Word(o: nat, code: nat, w: nat)
    requires o < 1024 && code < 16 && w == o * 64 + code * 4 + TAG_COPY1
    ensures w < 0x1_0000 && w / 64 == o && w % 0x100 % 4 == 1 && w % 0x100 / 4 % 16 == code
  {
    var lowByte := o % 4 * 64 + code * 4 + TAG_COPY1;
    DivMod(w, 64, o, code * 4 + TAG_COPY1);
    DivMod(w, 0x100, o / 4, lowByte);
    DivMod(lowByte, 4, o % 4 * 16 + code, 1);
    DivMod(o % 4 * 16 + code, 16, o % 4, code);
  }

  lemma ParseCopy1Bytes(offset: nat, length: nat)
    requires 1 <= offset <= MAX_COPY1_OFFSET && 4 <= length < 256 + 18
    ensures ParseAt(CopyBytes(offset, length), 0) == Tag(Copy([], offset, length), |CopyBytes(offset, length)|)
  {
    var b, code := CopyBytes(offset, length), if length < 19 then length - 4 else 15;
    var w := (offset - 1) * 64 + code * 4 + TAG_COPY1;
    Copy1Word(offset - 1, code, w);
    Le16RoundTrip(w);
    assert b[..2] == Le16Bytes(w);
    assert Le16(b, 0) == Le16(Le16Bytes(w), 0);
    assert ParseAt(b, 0) == ParseCopy1(b, 0);
  }

  lemma FusedTag(raw: nat, count: nat, tag: nat)
    requires raw <= 7 && 1 <= count <= 4 && tag == TAG_COPY2_FUSED + raw * 32 + (count - 1) * 8
    ensures tag < 0x100 && tag % 4 == 3 && tag / 4 % 2 == 0 && tag / 8 % 4 + 1 == count && tag / 32 == raw
  {
  }

  lemma ParseFused2(lits: seq<byte>, offset: nat, raw: nat)
    requires MIN_COPY2_OFFSET <= offset <= MAX_COPY2_OFFSET && raw <= 7 && 1 <= |lits| <= MAX_COPY2_LITS
    ensures var b := [TAG_COPY2_FUSED + raw * 32 + (|lits| - 1) * 8] + Le16Bytes(offset - MIN_COPY2_OFFSET) + lits;
            ParseAt(b, 0) == Tag(Copy(lits, offset, raw + 4), |b|)
  {
    var f := offset - MIN_COPY2_OFFSET;
    var b := [TAG_COPY2_FUSED + raw * 32 + (|lits| - 1) * 8] + Le16Bytes(f) + lits;
    FusedTag(raw, |lits|, b[0]);
    Le16RoundTrip(f);
    assert Le16(b, 1) == Le16(Le16Bytes(f), 0);
    assert b[3..3 + |lits|] == lits;
    assert ParseAt(b, 0) == ParseFused(b, 0);
  }

  // -------- what each emission does to a decoder --------

  lemma RunLiteral(lit: seq<byte>, st: State)
    requires |lit| <= MAX_LITERAL
    ensures Run(LiteralBytes(lit), 0, st) == Some(State(st.out + lit, st.last))
  {
    if |lit| > 0 {
      ParseLiteral(lit);
      RunOneTag(LiteralBytes(lit), Literal(lit), st);
    } else {
      assert st.out + lit == st.out;
    }
  }

  lemma RunRepeat(length: nat, st: State)
    requires 1 <= length < 0x100_0000
    ensures Run(RepeatBytes(length), 0, st) == CopyMatch(st.out, st.last, length)
  {
    ParseRepeat(length);
    RunOneTag(RepeatBytes(length), Repeat(length), st);
  }

  lemma {:induction false} ForwardCopySplit(out: seq<byte>, offset: nat, a: nat, b: nat)
    requires 1 <= offset <= |out|
    ensures ForwardCopy(out, offset, a + b) == ForwardCopy(ForwardCopy(out, offset, a), offset, b)
    decreases a
  {
    if a > 0 {
      ForwardCopySplit(out + [out[|out| - offset]], offset, a - 1, b);
    }
  }

  /** A copy chained with a repeat is one longer copy. */
  lemma RunChained(head: seq<byte>, lits: seq<byte>, offset: nat, a: nat, b: nat, st: State)
    requires |head| > 0 && ParseAt(head, 0) == Tag(Copy(lits, offset, a), |head|) && 1 <= b < 0x100_0000
    ensures Run(head + RepeatBytes(b), 0, st) == CopyMatch(st.out + lits, offset, a + b)
  {
    hide ParseAt, RepeatBytes;
    var out := st.out + lits;
    RunOneTag(head, Copy(lits, offset, a), st);
    if 1 <= offset <= |out| {
      var st' := State(ForwardCopy(out, offset, a), offset);
      RunConcat(head, RepeatBytes(b), st);
      RunRepeat(b, st');
      ForwardCopySplit(out, offset, a, b);
    } else {
      SameParse(head, 0, head + RepeatBytes(b), 0);
    }
  }

  lemma RunCopy2(offset: nat, length: nat, st: State)
    requires MIN_COPY2_OFFSET <= offset <= MAX_COPY2_OFFSET && 4 <= length < 0x100_0000
    ensures Run(Copy2Bytes(offset, length), 0, st) == CopyMatch(st.out, offset, length)
  {
    ParseCopy2Bytes(offset, length);
    RunOneTag(Copy2Bytes(offset, length), Copy([], offset, length), st);
    assert st.out + [] == st.out;
  }

  /** A Copy1 past the length field is a maximal Copy1 and a repeat. */
  lemma LongCopy1(offset: nat, length: nat)
    requires 1 <= offset <= MAX_COPY1_OFFSET && length >= 256 + 18
    ensures CopyBytes(offset, length) == CopyBytes(offset, 18) + RepeatBytes(length - 18)
  {
  }

  lemma RunCopy(offset: nat, length: nat, st: State)
    requires 1 <= offset <= MAX_COPY3_OFFSET && 4 <= length < 0x100_0000
    ensures Run(CopyBytes(offset, length), 0, st) == CopyMatch(st.out, offset, length)
  {
    hide ParseAt, Copy2Bytes, Copy3Bytes, RepeatBytes, CopyMatch;
    assert st.out + [] == st.out;
    if offset > MAX_COPY2_OFFSET {
      ParseCopy3Bytes([], offset, length);
      assert CopyBytes(offset, length) + [] == CopyBytes(offset, length);
      RunOneTag(CopyBytes(offset, length), Copy([], offset, length), st);
    } else if offset > MAX_COPY1_OFFSET {
      RunCopy2(offset, length, st);
    } else if length < 256 + 18 {
      ParseCopy1Bytes(offset, length);
      hide CopyBytes;
      RunOneTag(CopyBytes(offset, length), Copy([], offset, length), st);
    } else {
      ParseCopy1Bytes(offset, 18);
      LongCopy1(offset, length);
      hide CopyBytes;
      RunChained(CopyBytes(offset, 18), [], offset, 18, length - 18, st);
    }
  }

  lemma RunCopyLits2(lits: seq<byte>, offset: nat, length: nat, st: State)
    requires MIN_COPY2_OFFSET <= offset <= MAX_COPY2_OFFSET && 4 <= length < 0x100_0000
    requires 1 <= |lits| <= MAX_COPY2_LITS
    ensures Run(CopyLits2Bytes(lits, offset, length), 0, st) == CopyMatch(st.out + lits, offset, length)
  {
    hide ParseAt;
    if length <= COPY2_LIT_MAX_LEN {
      ParseFused2(lits, offset, length - 4);
      RunOneTag(CopyLits2Bytes(lits, offset, length), Copy(lits, offset, length), st);
    } else {
      ParseFused2(lits, offset, 7);
      RunChained(CopyLits2Bytes(lits, offset, 11), lits, offset, 11, length - 11, st);
    }
  }

  lemma RunCopyLits3(lits: seq<byte>, offset: nat, length: nat, st: State)
    requires MIN_COPY3_OFFSET <= offset <= MAX_COPY3_OFFSET && 4 <= length < 0x100_0000
    requires 1 <= |lits| <= MAX_COPY3_LITS
    ensures Run(CopyLits3Bytes(lits, offset, length), 0, st) == CopyMatch(st.out + lits, offset, length)
  {
    ParseCopy3Bytes(lits, offset, length);
    RunOneTag(CopyLits3Bytes(lits, offset, length), Copy(lits, offset, length), st);
  }

  // -------- the stores --------

  /** `was` with `b` written over it from `at` on. */
  function Splice(was: seq<byte>, at: nat, b: seq<byte>): (r: seq<byte>)
    requires at + |b| <= |was|
    ensures |r| == |was|
  {
    was[..at] + b + was[at + |b|..]
  }

  lemma SpliceTwice(was: seq<byte>, at: nat, a: seq<byte>, b: seq<byte>)
    requires at + |a| + |b| <= |was|
    ensures Splice(Splice(was, at, a), at + |a|, b) == Splice(was, at, a + b)
  {
  }

  lemma SplicePrefix(was: seq<byte>, at: nat, b: seq<byte>)
    requires at + |b| <= |was|
    ensures Splice(was, at, b)[..at + |b|] == was[..at] + b
  {
  }

  /** Unaligned stores and slice copies: overwrites `dst[at..]` with `b`, nothing else. */
  method StoreBytes(dst: array<byte>, at: nat, b: seq<byte>)
    requires at + |b| <= dst.Length
    modifies dst
    ensures dst[..] == Splice(old(dst[..]), at, b)
  {
    forall k | 0 <= k < |b| {
      dst[at + k] := b[k];
    }
  }

  method EmitLiteral(dst: array<byte>, d: nat, lit: seq<byte>) returns (n: nat)
    requires |lit| <= MAX_LITERAL && d + |LiteralBytes(lit)| <= dst.Length
    modifies dst
    ensures n == |LiteralBytes(lit)| && dst[..] == Splice(old(dst[..]), d, LiteralBytes(lit))
  {
    if |lit| == 0 {
      return 0;
    }
    n := |lit| - 1;
    var header;
    if n <= 28 {
      header := [n * 8 + TAG_LITERAL];
    } else if n <= 283 {
      header := [29 * 8 + TAG_LITERAL, n - 29];
    } else if n <= 65564 {
      header := [30 * 8 + TAG_LITERAL] + Le16Bytes(n - 29);
    } else {
      header := [31 * 8 + TAG_LITERAL] + Le24Bytes(n - 29);
    }
    assert header == LiteralHeader(|lit|);
    SpliceTwice(dst[..], d, header, lit);
    StoreBytes(dst, d, header);
    StoreBytes(dst, d + |header|, lit);
    n := |header| + |lit|;
  }

  method EmitRepeat(dst: array<byte>, d: nat, length: nat) returns (n: nat)
    requires length >= 1 && d + |RepeatBytes(length)| <= dst.Length
    modifies dst
    ensures n == |RepeatBytes(length)| && dst[..] == Splice(old(dst[..]), d, RepeatBytes(length))
  {
    if length < 30 {
      StoreBytes(dst, d, [(length - 1) * 8 + TAG_REPEAT]);
      return 1;
    }
    var l := length - 30;
    if l < 0x100 {
      StoreBytes(dst, d, [29 * 8 + TAG_REPEAT, l]);
      return 2;
    }
    if l < 0x1_0000 {
      StoreBytes(dst, d, [30 * 8 + TAG_REPEAT] + Le16Bytes(l));
      return 3;
    }
    StoreBytes(dst, d, [31 * 8 + TAG_REPEAT] + Le24Bytes(l));
    return 4;
  }

  method EncodeCopy2(dst: array<byte>, d: nat, offset: nat, length: nat) returns (n: nat)
    requires MIN_COPY2_OFFSET <= offset && length >= 4 && d + |Copy2Bytes(offset, length)| <= dst.Length
    modifies dst
    ensures n == |Copy2Bytes(offset, length)| && dst[..] == Splice(old(dst[..]), d, Copy2Bytes(offset, length))
  {
    var field, l := Le16Bytes(offset - MIN_COPY2_OFFSET), length - 4;
    if l <= 60 {
      StoreBytes(dst, d, [l * 4 + TAG_COPY2] + field);
      return 3;
    }
    l := l - 60;
    if l < 0x100 {
      StoreBytes(dst, d, [61 * 4 + TAG_COPY2] + field + [l]);
      return 4;
    }
    if l < 0x1_0000 {
      StoreBytes(dst, d, [62 * 4 + TAG_COPY2] + field + Le16Bytes(l));
      return 5;
    }
    StoreBytes(dst, d, [63 * 4 + TAG_COPY2] + field + Le24Bytes(l));
    return 6;
  }

  method EncodeCopy3(dst: array<byte>, d: nat, offset: nat, length: nat, lits: nat) returns (n: nat)
    requires MIN_COPY3_OFFSET <= offset && length >= 4 && lits <= MAX_COPY3_LITS
    requires d + |Copy3Bytes(offset, length, lits)| <= dst.Length
    modifies dst
    ensures n == |Copy3Bytes(offset, length, lits)|
    ensures dst[..] == Splice(old(dst[..]), d, Copy3Bytes(offset, length, lits))
  {
    var encoded, l := (offset - MIN_COPY3_OFFSET) * 2048 + TAG_COPY3 + lits * 8, length - 4;
    if l <= 60 {
      StoreBytes(dst, d, Le32Bytes(encoded + l * 32));
      return 4;
    }
    l := l - 60;
    if l < 0x100 {
      StoreBytes(dst, d, Le32Bytes(encoded + 61 * 32) + [l]);
      return 5;
    }
    if l < 0x1_0000 {
      StoreBytes(dst, d, Le32Bytes(encoded + 62 * 32) + Le16Bytes(l));
      return 6;
    }
    StoreBytes(dst, d, Le32Bytes(encoded + 63 * 32) + Le24Bytes(l));
    return 7;
  }

  method EmitCopy(dst: array<byte>, d: nat, offset: nat, length: nat) returns (n: nat)
    requires offset >= 1 && length >= 4 && d + |CopyBytes(offset, length)| <= dst.Length
    modifies dst
    ensures n == |CopyBytes(offset, length)| && dst[..] == Splice(old(dst[..]), d, CopyBytes(offset, length))
  {
    if offset > MAX_COPY2_OFFSET {
      n := EncodeCopy3(dst, d, offset, length, 0);
      return;
    }
    if offset <= MAX_COPY1_OFFSET {
      var off := offset - 1;
      if length < 15 + 4 {
        StoreBytes(dst, d, Le16Bytes(off * 64 + (length - 4) * 4 + TAG_COPY1));
        return 2;
      }
      if length < 256 + 18 {
        StoreBytes(dst, d, Le16Bytes(off * 64 + 15 * 4 + TAG_COPY1) + [length - 18]);
        return 3;
      }
      var x := Le16Bytes(off * 64 + 14 * 4 + TAG_COPY1);
      SpliceTwice(dst[..], d, x, RepeatBytes(length - 18));
      StoreBytes(dst, d, x);
      n := EmitRepeat(dst, d + 2, length - 18);
      return n + 2;
    }
    n := EncodeCopy2(dst, d, offset, length);
  }

  method EmitCopyLits2(dst: array<byte>, d: nat, lits: seq<byte>, offset: nat, length: nat) returns (n: nat)
    requires MIN_COPY2_OFFSET <= offset && 1 <= |lits| <= MAX_COPY2_LITS && length >= 4
    requires d + |CopyLits2Bytes(lits, offset, length)| <= dst.Length
    modifies dst
    ensures n == |CopyLits2Bytes(lits, offset, length)|
    ensures dst[..] == Splice(old(dst[..]), d, CopyLits2Bytes(lits, offset, length))
  {
    hide Splice, RepeatBytes;
    var field, raw := Le16Bytes(offset - MIN_COPY2_OFFSET), length - 4;
    if raw > COPY2_LIT_MAX_LEN - 4 {
      var head := [TAG_COPY2_FUSED + (COPY2_LIT_MAX_LEN - 4) * 32 + (|lits| - 1) * 8] + field + lits;
      assert CopyLits2Bytes(lits, offset, length) == head + RepeatBytes(raw - 7);
      SpliceTwice(dst[..], d, head, RepeatBytes(raw - 7));
      StoreBytes(dst, d, head);
      n := EmitRepeat(dst, d + 3 + |lits|, raw - (COPY2_LIT_MAX_LEN - 4));
      return n + 3 + |lits|;
    }
    StoreBytes(dst, d, [TAG_COPY2_FUSED + raw * 32 + (|lits| - 1) * 8] + field + lits);
    return 3 + |lits|;
  }

  method EmitCopyLits3(dst: array<byte>, d: nat, lits: seq<byte>, offset: nat, length: nat) returns (n: nat)
    requires MIN_COPY3_OFFSET <= offset && 1 <= |lits| <= MAX_COPY3_LITS && length >= 4
    requires d + |CopyLits3Bytes(lits, offset, length)| <= dst.Length
    modifies dst
    ensures n == |CopyLits3Bytes(lits, offset, length)|
    ensures dst[..] == Splice(old(dst[..]), d, CopyLits3Bytes(lits, offset, length))
  {
    hide Splice, Copy3Bytes;
    SpliceTwice(dst[..], d, Copy3Bytes(offset, length, |lits|), lits);
    n := EncodeCopy3(dst, d, offset, length, |lits|);
    StoreBytes(dst, d + n, lits);
    n := n + |lits|;
  }

  // -------- size predictors --------

  function EmitLiteralSizeN(n: nat): nat {
    if n == 0 then 0
    else if n <= 29 then 1
    else if n < 29 + 0x100 then 2
    else if n < 29 + 0x1_0000 then 3
    else 4
  }

  function EmitRepeatSize(length: nat): nat {
    if length == 0 then 0
    else if length <= 29 then 1
    else if length - 29 <= 0x100 then 2
    else if length - 29 <= 0x1_0000 then 3
    else 4
  }

  function EmitCopy2Size(length: nat): nat
    requires length >= 4
  {
    if length - 4 <= 60 then 3
    else if length - 64 < 0x100 then 4
    else if length - 64 < 0x1_0000 then 5
    else 6
  }

  function EmitCopySize(offset: nat, length: nat): nat
    requires length >= 4
  {
    if offset > 65536 + 63 then
      if length <= 64 then 4 else 4 + (BitLength(length - 64) + 7) / 8
    else if offset <= MAX_COPY1_OFFSET then
      if length <= 18 then 2 else if length < 18 + 256 then 3 else 2 + EmitRepeatSize(length - 18)
    else EmitCopy2Size(length)
  }

  /** The L3 encoder's cost model is exact for repeats and copies. */
  lemma CopySizeExact(offset: nat, length: nat)
    requires 1 <= offset && 4 <= length < 0x100_0000
    ensures EmitCopySize(offset, length) == |CopyBytes(offset, length)|
    ensures EmitRepeatSize(length) == |RepeatBytes(length)|
  {
    hide BitLength;
    if offset > MAX_COPY2_OFFSET && length > 64 {
      BytesOfBits(length - 64);
    }
  }

  /** The bytes that the bits of a length need. */
  lemma BytesOfBits(n: nat)
    requires 0 < n < 0x100_0000
    ensures (BitLength(n) + 7) / 8 == if n < 0x100 then 1 else if n < 0x1_0000 then 2 else 3
  {
    hide BitLength;
    BitLengthFits(n, 0);
    BitLengthFits(n, 8);
    BitLengthFits(n, 16);
    BitLengthFits(n, 24);
    assert Pow2(8) == 0x100;
    assert Pow2(16) == 0x1_0000;
    assert Pow2(24) == 0x100_0000;
  }

  /** For literals it never under-counts, and it is off (by one too many) at a single length. */
  lemma LiteralSizeExact(length: nat)
    requires 1 <= length <= MAX_LITERAL
    ensures EmitLiteralSizeN(length) == |LiteralHeader(length)| + (if length == 65565 then 1 else 0)
  {
  }
}
