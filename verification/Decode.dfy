/** The block decoder: a fast loop that reads 16 bytes ahead and lets its stores overshoot, and a
    tail loop that checks every read.  Both are proved against `BlockSpec.Run`. */
module Decode {
  import opened Bytes
  import opened BlockSpec
  import opened Emit

  /** Writable bytes the caller provides past the decoded length. */
  const OVERSHOOT_PAD: nat := 16

  // -------- tag fields --------

  datatype Kind = LiteralTag | RepeatTag | CopyTag

  /** What a loop extracts from a tag before it touches any literal bytes, which start at `next`. */
  datatype Fields = Fields(kind: Kind, offset: nat, length: nat, litLen: nat, next: nat)

  ghost function Meaning(f: Fields, src: seq<byte>): Parsed {
    match f.kind
    case LiteralTag =>
      if f.next > |src| || f.length > |src| - f.next then Truncated
      else Tag(Literal(src[f.next..f.next + f.length]), f.next + f.length)
    case RepeatTag => Tag(Repeat(f.length), f.next)
    case CopyTag => WithLits(src, f.next, f.litLen, f.offset, f.length)
  }

  /** The bit fields of a 32-bit load that lie in its first, or its middle, bytes. */
  lemma WordFields(src: seq<byte>, s: nat)
    requires s + 4 <= |src|
    ensures var val, tag := Le32(src, s), src[s] as nat;
            && val / 4 % 2 == tag / 4 % 2 && val / 8 % 4 == tag / 8 % 4 && val / 32 % 8 == tag / 32
            && val / 0x100 % 0x1_0000 == Le16(src, s + 1) && val / 0x100 == Le24(src, s + 1)
  {
    var tag: nat, rest := src[s], Le24(src, s + 1);
    var val := tag + 0x100 * rest;
    assert Le32(src, s) == val;
    DivMod(val, 0x100, rest, tag);
    DivMod(rest, 0x1_0000, src[s + 3], Le16(src, s + 1));
    DivMod(val, 4, tag / 4 + 64 * rest, tag % 4);
    DivMod(tag / 4 + 64 * rest, 2, tag / 4 / 2 + 32 * rest, tag / 4 % 2);
    DivMod(val, 8, tag / 8 + 32 * rest, tag % 8);
    DivMod(tag / 8 + 32 * rest, 4, tag / 8 / 4 + 8 * rest, tag / 8 % 4);
    DivMod(val, 32, tag / 32 + 8 * rest, tag % 32);
    DivMod(tag / 32 + 8 * rest, 8, rest, tag / 32);
  }

  lemma EmptySlices(src: seq<byte>)
    ensures forall i :: 0 <= i <= |src| ==> src[i..i] == []
  {
  }

  /** An extended length read without checks: three bytes come from a 32-bit load one byte early. */
  method FastLength(src: seq<byte>, s: nat, code: nat, big: nat, small: nat, base: nat) returns (length: nat, next: nat)
    requires 1 <= s && s + 3 <= |src|
    ensures LengthAt(src, s, code, big, small, base) == Some((length, next)) && s <= next <= s + 3
    ensures length >= if code < big then small else base
  {
    if code < big {
      length, next := code + small, s;
    } else if code == big {
      length, next := src[s] as nat + base, s + 1;
    } else if code == big + 1 {
      length, next := Le16(src, s) + base, s + 2;
    } else {
      WordFields(src, s - 1);
      length, next := Le32(src, s - 1) / 0x100 + base, s + 3;
    }
  }

  /** The fast loop's tag match: no read is checked, because 16 bytes are there. */
  method FastFields(src: seq<byte>, s: nat) returns (f: Fields)
    requires s + 16 <= |src|
    ensures Meaning(f, src) == ParseAt(src, s) && s < f.next <= s + 7 && f.litLen <= 4
    ensures f.kind.RepeatTag? ==> f.length >= 1
    ensures f.kind.CopyTag? ==> f.length >= 4 && f.offset >= 1
  {
    hide LengthAt, Le16, Le24, Le32;
    EmptySlices(src);
    var tag, length, next := src[s] as nat, 0, 0;
    if tag % 4 == 0 {
      length, next := FastLength(src, s + 1, tag / 8, 29, 1, 30);
      f := Fields(if tag / 4 % 2 == 0 then LiteralTag else RepeatTag, 0, length, 0, next);
    } else if tag % 4 == 1 {
      var lo16 := Le16(src, s);
      Copy1LengthField(src, s);
      if lo16 / 4 % 16 == 15 {
        f := Fields(CopyTag, lo16 / 64 + 1, src[s + 2] as nat + 18, 0, s + 3);
      } else {
        f := Fields(CopyTag, lo16 / 64 + 1, lo16 / 4 % 16 + 4, 0, s + 2);
      }
    } else if tag % 4 == 2 {
      length, next := FastLength(src, s + 3, tag / 4, 61, 4, 64);
      f := Fields(CopyTag, Le16(src, s + 1) + MIN_COPY2_OFFSET, length, 0, next);
    } else {
      var val := Le32(src, s);
      WordFields(src, s);
      if val / 4 % 2 == 0 {
        f := Fields(CopyTag, val / 0x100 % 0x1_0000 + MIN_COPY2_OFFSET, 4 + val / 32 % 8, val / 8 % 4 + 1, s + 3);
      } else {
        length, next := FastLength(src, s + 4, val / 32 % 64, 61, 4, 64);
        f := Fields(CopyTag, val / 2048 + MIN_COPY3_OFFSET, length, val / 8 % 4, next);
      }
    }
  }

  lemma Copy1LengthField(src: seq<byte>, s: nat)
    requires s + 2 <= |src|
    ensures Le16(src, s) / 4 % 16 == src[s] as nat / 4 % 16
  {
    var tag: nat, high: nat := src[s], src[s + 1];
    DivMod(Le16(src, s), 4, tag / 4 + 64 * high, tag % 4);
    DivMod(tag / 4 + 64 * high, 16, tag / 4 / 16 + 4 * high, tag / 4 % 16);
  }

  /** An extended length read with checks: the position advances first. */
  method TailLength(src: seq<byte>, s: nat, code: nat, big: nat, small: nat, base: nat)
    returns (ok: bool, length: nat, next: nat)
    requires s <= |src|
    ensures LengthAt(src, s, code, big, small, base) == if ok then Some((length, next)) else None
    ensures ok ==> s <= next <= |src| && length >= if code < big then small else base
  {
    next := s;
    if code < big {
      length := code + small;
    } else if code == big {
      next := next + 1;
      if next > |src| {
        return false, 0, next;
      }
      length := src[next - 1] as nat + base;
    } else if code == big + 1 {
      next := next + 2;
      if next > |src| {
        return false, 0, next;
      }
      length := Le16(src, next - 2) + base;
    } else {
      next := next + 3;
      if next > |src| {
        return false, 0, next;
      }
      length := Le24(src, next - 3) + base;
    }
    ok := true;
  }

  /** The fused copies. */
  method TailFused(src: seq<byte>, s0: nat) returns (ok: bool, f: Fields)
    requires s0 < |src| && src[s0] % 4 == 3
    ensures ok ==> Meaning(f, src) == ParseAt(src, s0) && s0 < f.next <= |src|
    ensures ok ==> f.kind.CopyTag? && f.length >= 4 && f.offset >= 1
    ensures !ok ==> ParseAt(src, s0).Truncated?
  {
    hide LengthAt, Le16, Le24, Le32;
    EmptySlices(src);
    ok, f := false, Fields(LiteralTag, 0, 0, 0, 0);
    var s := s0 + 4;
    if s > |src| {
      return;
    }
    var val := Le32(src, s - 4);
    WordFields(src, s - 4);
    if val / 4 % 2 == 0 {
      ok := true;
      f := Fields(CopyTag, val / 0x100 % 0x1_0000 + MIN_COPY2_OFFSET, 4 + val / 32 % 8, val / 8 % 4 + 1, s - 1);
    } else {
      var length: nat;
      ok, length, s := TailLength(src, s, val / 32 % 64, 61, 4, 64);
      f := Fields(CopyTag, val / 2048 + MIN_COPY3_OFFSET, length, val / 8 % 4, s);
    }
  }

  /** The tail loop's tag match: every read is checked. */
  method TailFields(src: seq<byte>, s0: nat) returns (ok: bool, f: Fields)
    requires s0 < |src|
    ensures ok ==> Meaning(f, src) == ParseAt(src, s0) && s0 < f.next <= |src|
    ensures ok && f.kind.RepeatTag? ==> f.length >= 1
    ensures ok && f.kind.CopyTag? ==> f.length >= 4 && f.offset >= 1
    ensures !ok ==> ParseAt(src, s0).Truncated?
  {
    hide LengthAt, Le16, Le24, Le32;
    EmptySlices(src);
    ok, f := false, Fields(LiteralTag, 0, 0, 0, 0);
    var s, tag := s0, src[s0] as nat;
    var length: nat;
    if tag % 4 == 0 {
      ok, length, s := TailLength(src, s + 1, tag / 8, 29, 1, 30);
      f := Fields(if tag / 4 % 2 == 0 then LiteralTag else RepeatTag, 0, length, 0, s);
    } else if tag % 4 == 1 {
      s := s + 2;
      if s > |src| {
        return;
      }
      var offset, lenField := Le16(src, s - 2) / 64 + 1, tag / 4 % 16;
      if lenField == 15 {
        s := s + 1;
        if s > |src| {
          return;
        }
        length := src[s - 1] as nat + 18;
      } else {
        length := lenField + 4;
      }
      ok, f := true, Fields(CopyTag, offset, length, 0, s);
    } else if tag % 4 == 2 {
      s := s + 3;
      if s > |src| {
        return;
      }
      var offset := Le16(src, s - 2) + MIN_COPY2_OFFSET;
      ok, length, s := TailLength(src, s, tag / 4, 61, 4, 64);
      f := Fields(CopyTag, offset, length, 0, s);
    } else {
      ok, f := TailFused(src, s);
    }
  }

  // -------- one decoding step --------

  /** `out` and `last` are what decoding `src[..s]` yields. */
  ghost predicate Decoding(src: seq<byte>, s: nat, out: seq<byte>, last: nat, dlen: nat) {
    s <= |src| && |out| <= dlen && last >= 1 && Run(src, 0, INITIAL) == Run(src, s, State(out, last))
  }

  lemma LiteralStep(src: seq<byte>, s: nat, out: seq<byte>, last: nat, dlen: nat, f: Fields)
    requires Decoding(src, s, out, last, dlen) && s < |src| && f.kind.LiteralTag?
    requires Meaning(f, src) == ParseAt(src, s) && s < f.next <= |src|
    ensures f.length > dlen - |out| || f.length > |src| - f.next ==> DecodeBody(src, dlen).None?
    ensures f.length <= dlen - |out| && f.length <= |src| - f.next ==>
              Decoding(src, f.next + f.length, out + src[f.next..f.next + f.length], last, dlen)
  {
    hide ParseAt;
  }

  lemma CopyStep(src: seq<byte>, s: nat, out: seq<byte>, last: nat, dlen: nat, f: Fields)
    requires Decoding(src, s, out, last, dlen) && s < |src| && !f.kind.LiteralTag?
    requires Meaning(f, src) == ParseAt(src, s) && s < f.next
    requires f.kind.CopyTag? ==> f.offset >= 1
    ensures var litLen, offset := if f.kind.RepeatTag? then 0 else f.litLen, if f.kind.RepeatTag? then last else f.offset;
            if f.next + litLen > |src| || |out| + litLen < offset || |out| + litLen + f.length > dlen
            then DecodeBody(src, dlen).None?
            else Decoding(src, f.next + litLen, ForwardCopy(out + src[f.next..f.next + litLen], offset, f.length), offset, dlen)
  {
    hide ParseAt, ForwardCopy, Run, DecodeBody, Meaning, Step;
    var litLen, offset := if f.kind.RepeatTag? then 0 else f.litLen, if f.kind.RepeatTag? then last else f.offset;
    if f.next + litLen > |src| {
      CopyMissing(src, f);
      FailedDecode(src, s, out, last, dlen);
    } else {
      var next, out1 := f.next + litLen, out + src[f.next..f.next + litLen];
      CopyMeaning(src, out, last, f);
      RunTag(src, s, State(out, last));
      if |out1| < offset {
        FailedDecode(src, s, out, last, dlen);
      } else if |out1| + f.length > dlen {
        TooLong(src, next, State(ForwardCopy(out1, offset, f.length), offset), dlen);
      }
    }
  }

  lemma CopyMissing(src: seq<byte>, f: Fields)
    requires !f.kind.LiteralTag? && f.next + (if f.kind.RepeatTag? then 0 else f.litLen) > |src|
    requires Meaning(f, src).Tag? ==> Meaning(f, src).next <= |src|
    ensures !Meaning(f, src).Tag?
  {
  }

  /** What a complete copy or repeat tag does to the decoder. */
  lemma CopyMeaning(src: seq<byte>, out: seq<byte>, last: nat, f: Fields)
    requires !f.kind.LiteralTag? && f.next + (if f.kind.RepeatTag? then 0 else f.litLen) <= |src|
    requires f.kind.CopyTag? ==> f.offset >= 1
    ensures var litLen, offset := if f.kind.RepeatTag? then 0 else f.litLen, if f.kind.RepeatTag? then last else f.offset;
            var m := Meaning(f, src);
            && m.Tag? && m.next == f.next + litLen
            && Step(State(out, last), m.op) == CopyMatch(out + src[f.next..f.next + litLen], offset, f.length)
  {
    hide ForwardCopy;
    if f.kind.RepeatTag? {
      assert out + src[f.next..f.next] == out;
    }
  }

  /** One step of `Run`, without unfolding it. */
  lemma RunTag(src: seq<byte>, s: nat, st: State)
    requires s < |src|
    ensures var p := ParseAt(src, s);
            Run(src, s, st) ==
            if p.Truncated? || Step(st, p.op).None? then None else Run(src, p.next, Step(st, p.op).value)
  {
    hide ParseAt, Step;
  }

  lemma FailedDecode(src: seq<byte>, s: nat, out: seq<byte>, last: nat, dlen: nat)
    requires Decoding(src, s, out, last, dlen) && s < |src|
    requires ParseAt(src, s).Truncated? || Step(State(out, last), ParseAt(src, s).op).None?
    ensures DecodeBody(src, dlen).None?
  {
    hide ParseAt, Step;
  }

  /** Output never shrinks, so once it is too long the block is corrupt. */
  lemma TooLong(src: seq<byte>, s: nat, st: State, dlen: nat)
    requires s <= |src| && Run(src, 0, INITIAL) == Run(src, s, st) && |st.out| > dlen
    ensures DecodeBody(src, dlen).None?
  {
  }

  // -------- the stores --------

  /** A store that may overshoot: `n` of the bytes count, the others land before `limit`. */
  method Overwrite(dst: array<byte>, d: nat, b: seq<byte>, n: nat, ghost limit: nat)
    requires n <= |b| && d + |b| <= limit <= dst.Length
    modifies dst
    ensures dst[..d + n] == old(dst[..d]) + b[..n]
    ensures dst[limit..] == old(dst[limit..])
  {
    OvershootKept(dst[..], d, b, n, limit);
    StoreBytes(dst, d, b);
    hide Splice;
    assert dst[..d + n] == dst[..][..d + n];
    assert dst[limit..] == dst[..][limit..];
  }

  lemma OvershootKept(was: seq<byte>, d: nat, b: seq<byte>, n: nat, limit: nat)
    requires n <= |b| && d + |b| <= limit <= |was|
    ensures Splice(was, d, b)[..d + n] == was[..d] + b[..n]
    ensures Splice(was, d, b)[limit..] == was[limit..]
  {
  }

  /** 16 bytes at once when the source has them, exactly `length` otherwise. */
  method CopyShortLiteral(dst: array<byte>, d: nat, src: seq<byte>, s: nat, length: nat, ghost limit: nat)
    requires s + length <= |src| && d + length <= limit && d + 16 <= limit <= dst.Length
    modifies dst
    ensures dst[..d + length] == old(dst[..d]) + src[s..s + length]
    ensures dst[limit..] == old(dst[limit..])
  {
    if length <= 16 && s + 16 <= |src| {
      assert src[s..s + 16][..length] == src[s..s + length];
      Overwrite(dst, d, src[s..s + 16], length, limit);
    } else {
      assert src[s..s + length][..length] == src[s..s + length];
      Overwrite(dst, d, src[s..s + length], length, limit);
    }
  }

  /** While the copied bytes were all there before, a forward copy is a block copy. */
  lemma {:induction false} DisjointCopy(out: seq<byte>, offset: nat, length: nat)
    requires 1 <= offset <= |out| && length <= offset
    ensures ForwardCopy(out, offset, length) == out + out[|out| - offset..|out| - offset + length]
    decreases length
  {
    if length > 0 {
      DisjointCopy(out, offset, length - 1);
      ForwardCopySplit(out, offset, length - 1, 1);
      var most := ForwardCopy(out, offset, length - 1);
      assert most[|most| - offset] == out[|out| - offset + length - 1];
      assert ForwardCopy(most, offset, 1) == most + [most[|most| - offset]];
    }
  }

  lemma DisjointCopyInto(dst: array<byte>, d: nat, offset: nat, length: nat)
    requires 1 <= offset <= d <= dst.Length && length <= offset
    ensures ForwardCopy(dst[..d], offset, length) == dst[..d] + dst[d - offset..d - offset + length]
  {
    DisjointCopy(dst[..d], offset, length);
    hide ForwardCopy;
    assert dst[..d][d - offset..d - offset + length] == dst[d - offset..d - offset + length];
  }

  /** The overlapping copy, byte by byte. */
  method ForwardCopyInto(dst: array<byte>, d: nat, offset: nat, length: nat, ghost limit: nat)
    requires 1 <= offset <= d && d + length <= limit <= dst.Length
    modifies dst
    ensures dst[..d + length] == ForwardCopy(old(dst[..d]), offset, length)
    ensures dst[limit..] == old(dst[limit..])
  {
    var i := 0;
    while i < length
      invariant i <= length && dst[..d + i] == ForwardCopy(old(dst[..d]), offset, i)
      invariant dst[limit..] == old(dst[limit..])
    {
      ForwardCopySplit(old(dst[..d]), offset, i, 1);
      ghost var before := dst[..d + i];
      assert ForwardCopy(before, offset, 1) == before + [before[d + i - offset]];
      dst[d + i] := dst[d - offset + i];
      assert dst[..d + i + 1] == before + [before[d + i - offset]];
      i := i + 1;
    }
  }

  /** The fast loop's copy: a 16-byte move for short disjoint copies. */
  method FastCopy(dst: array<byte>, d: nat, offset: nat, length: nat, ghost limit: nat)
    requires 1 <= offset <= d && d + length <= limit && d + 16 <= limit <= dst.Length
    modifies dst
    ensures dst[..d + length] == ForwardCopy(old(dst[..d]), offset, length)
    ensures dst[limit..] == old(dst[limit..])
  {
    hide ForwardCopy;
    if offset > length {
      var from := d - offset;
      DisjointCopyInto(dst, d, offset, length);
      if length <= 16 && offset >= 16 {
        assert dst[from..from + 16][..length] == dst[from..from + length];
        Overwrite(dst, d, dst[from..from + 16], length, limit);
      } else {
        Overwrite(dst, d, dst[from..from + length], length, limit);
      }
    } else {
      ForwardCopyInto(dst, d, offset, length, limit);
    }
  }

  method TailCopy(dst: array<byte>, d: nat, offset: nat, length: nat, ghost limit: nat)
    requires 1 <= offset <= d && d + length <= limit <= dst.Length
    modifies dst
    ensures dst[..d + length] == ForwardCopy(old(dst[..d]), offset, length)
    ensures dst[limit..] == old(dst[limit..])
  {
    hide ForwardCopy;
    if offset > length {
      var from := d - offset;
      DisjointCopyInto(dst, d, offset, length);
      Overwrite(dst, d, dst[from..from + length], length, limit);
    } else {
      ForwardCopyInto(dst, d, offset, length, limit);
    }
  }

  // -------- the loops --------

  /** Runs while 16 source bytes remain.  Fused literals are stored four at a time, which is refused
      when fewer than four output bytes are left: such input is corrupt anyway, as the copy that
      follows is at least four bytes long. */
  method FastLoop(dst: array<byte>, dlen: nat, src: seq<byte>) returns (ok: bool, s: nat, d: nat, offset: nat)
    requires dlen + OVERSHOOT_PAD <= dst.Length
    modifies dst
    ensures ok ==> d <= dlen && Decoding(src, s, dst[..d], offset, dlen)
    ensures !ok ==> DecodeBody(src, dlen).None?
    ensures dst[dlen + OVERSHOOT_PAD..] == old(dst[dlen + OVERSHOOT_PAD..])
  {
    hide Decoding, Meaning, ParseAt, DecodeBody, ForwardCopy;
    s, d, offset := 0, 0, 1;
    assert dst[..0] == [];
    NothingDecoded(src, dlen);
    while s + 16 <= |src|
      invariant d <= dlen && offset >= 1 && s <= |src| && Decoding(src, s, dst[..d], offset, dlen)
      invariant dst[dlen + OVERSHOOT_PAD..] == old(dst[dlen + OVERSHOOT_PAD..])
      decreases |src| - s
    {
      var f := FastFields(src, s);
      if f.kind.LiteralTag? {
        LiteralStep(src, s, dst[..d], offset, dlen, f);
        if f.length > dlen - d || f.length > |src| - f.next {
          return false, s, d, offset;
        }
        CopyShortLiteral(dst, d, src, f.next, f.length, dlen + OVERSHOOT_PAD);
        d, s := d + f.length, f.next + f.length;
        continue;
      }
      CopyStep(src, s, dst[..d], offset, dlen, f);
      s := f.next;
      if f.kind.CopyTag? {
        offset := f.offset;
        if f.litLen > 0 {
          if dlen - d < 4 {
            return false, s, d, offset;
          }
          assert src[s..s + 4][..f.litLen] == src[s..s + f.litLen];
          Overwrite(dst, d, src[s..s + 4], f.litLen, dlen + OVERSHOOT_PAD);
          s, d := s + f.litLen, d + f.litLen;
        } else {
          assert dst[..d] == dst[..d] + src[f.next..f.next + 0];
        }
      } else {
        assert dst[..d] == dst[..d] + src[f.next..f.next + 0];
      }
      if d < offset || f.length > dlen - d {
        return false, s, d, offset;
      }
      FastCopy(dst, d, offset, f.length, dlen + OVERSHOOT_PAD);
      d := d + f.length;
    }
    ok := true;
  }

  lemma NothingDecoded(src: seq<byte>, dlen: nat)
    ensures Decoding(src, 0, [], 1, dlen)
  {
  }

  lemma AllDecoded(src: seq<byte>, out: seq<byte>, last: nat, dlen: nat)
    requires Decoding(src, |src|, out, last, dlen)
    ensures DecodeBody(src, dlen) == if |out| == dlen then Some(out) else None
  {
  }

  /** The bounds-checked loop, from any point the decoder may have reached. */
  method TailLoop(dst: array<byte>, dlen: nat, src: seq<byte>, s0: nat, d0: nat, offset0: nat) returns (ok: bool)
    requires dlen <= dst.Length && d0 <= dlen && Decoding(src, s0, dst[..d0], offset0, dlen)
    modifies dst
    ensures ok <==> DecodeBody(src, dlen).Some?
    ensures ok ==> DecodeBody(src, dlen) == Some(dst[..dlen])
    ensures dst[dlen..] == old(dst[dlen..])
  {
    hide Meaning, ParseAt, DecodeBody, ForwardCopy, Run;
    var s: nat, d: nat, offset: nat := s0, d0, offset0;
    while s < |src|
      invariant d <= dlen && s <= |src| && offset >= 1 && Decoding(src, s, dst[..d], offset, dlen)
      invariant dst[dlen..] == old(dst[dlen..])
      decreases |src| - s
    {
      var fine, f := TailFields(src, s);
      if !fine {
        FailedDecode(src, s, dst[..d], offset, dlen);
        return false;
      }
      if f.kind.LiteralTag? {
        LiteralStep(src, s, dst[..d], offset, dlen, f);
        if f.length > dlen - d || f.length > |src| - f.next {
          return false;
        }
        assert src[f.next..f.next + f.length][..f.length] == src[f.next..f.next + f.length];
        Overwrite(dst, d, src[f.next..f.next + f.length], f.length, dlen);
        d, s := d + f.length, f.next + f.length;
        continue;
      }
      CopyStep(src, s, dst[..d], offset, dlen, f);
      s := f.next;
      if f.kind.CopyTag? {
        offset := f.offset;
        if f.litLen > 0 {
          if f.litLen > dlen - d || s + f.litLen > |src| {
            return false;
          }
          assert src[s..s + f.litLen][..f.litLen] == src[s..s + f.litLen];
          Overwrite(dst, d, src[s..s + f.litLen], f.litLen, dlen);
          d, s := d + f.litLen, s + f.litLen;
        } else {
          assert dst[..d] == dst[..d] + src[f.next..f.next + 0];
        }
      } else {
        assert dst[..d] == dst[..d] + src[f.next..f.next + 0];
      }
      if offset == 0 || d < offset || f.length > dlen - d {
        return false;
      }
      TailCopy(dst, d, offset, f.length, dlen);
      d := d + f.length;
    }
    AllDecoded(src, dst[..d], offset, dlen);
    ok := d == dlen;
  }

  /** Accepts exactly the bodies that decode to `dlen` bytes, and then holds them; nothing beyond
      the padding is written. */
  method MinlzDecode(dst: array<byte>, dlen: nat, src: seq<byte>) returns (ok: bool)
    requires dlen + OVERSHOOT_PAD <= dst.Length
    modifies dst
    ensures ok <==> DecodeBody(src, dlen).Some?
    ensures ok ==> DecodeBody(src, dlen) == Some(dst[..dlen])
    ensures dst[dlen + OVERSHOOT_PAD..] == old(dst[dlen + OVERSHOOT_PAD..])
  {
    var s, d, offset;
    ok, s, d, offset := FastLoop(dst, dlen, src);
    if ok {
      ghost var past := dst[dlen..];
      ok := TailLoop(dst, dlen, src, s, d, offset);
      assert dst[dlen + OVERSHOOT_PAD..] == past[OVERSHOOT_PAD..];
    }
  }

  /** The two loops together decide and produce what the tail loop does on its own. */
  method FastPathAgrees(a: array<byte>, b: array<byte>, dlen: nat, src: seq<byte>) returns (two: bool, tailOnly: bool)
    requires a != b && dlen + OVERSHOOT_PAD <= a.Length && dlen <= b.Length
    modifies a, b
    ensures two == tailOnly && (two ==> a[..dlen] == b[..dlen])
  {
    two := MinlzDecode(a, dlen, src);
    NothingDecoded(src, dlen);
    assert b[..0] == [];
    tailOnly := TailLoop(b, dlen, src, 0, 0, 1);
  }
}
