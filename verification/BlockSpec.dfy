/** The MinLZ block grammar (sections 1 and 2 of the MinLZ specification): constants, the tag
    parser, and what a sequence of tags means to a decoder. */
module BlockSpec {
  import opened Bytes

  const MAX_BLOCK_SIZE: nat := 0x80_0000

  const TAG_LITERAL: nat := 0
  const TAG_REPEAT: nat := 4
  const TAG_COPY1: nat := 1
  const TAG_COPY2: nat := 2
  const TAG_COPY3: nat := 7
  const TAG_COPY2_FUSED: nat := 3

  const MAX_COPY1_OFFSET: nat := 1024
  const MIN_COPY2_OFFSET: nat := 64
  const MAX_COPY2_OFFSET: nat := MIN_COPY2_OFFSET + 65535
  const MIN_COPY3_OFFSET: nat := 65536
  const MAX_COPY3_OFFSET: nat := 0x20_0000 + 65535

  const MAX_COPY2_LITS: nat := 4
  const MAX_COPY3_LITS: nat := 3
  const COPY2_LIT_MAX_LEN: nat := 11

  const INPUT_MARGIN: nat := 8
  const MIN_NON_LITERAL_BLOCK_SIZE: nat := 16

  /** One decoded tag.  A copy emits its fused literals (possibly none) before the match. */
  datatype Op =
    | Literal(lits: seq<byte>)
    | Repeat(length: nat)
    | Copy(lits: seq<byte>, offset: nat, length: nat)

  /** The outcome of parsing one tag: `next` is the position after it. */
  datatype Parsed = Truncated | Tag(op: Op, next: nat)

  /** What a decoder remembers: its output and the last copy offset, which repeats reuse. */
  datatype State = State(out: seq<byte>, last: nat)

  const INITIAL := State([], 1)

  // -------- parsing --------

  /** A length field `code` of which `big`, `big + 1` and `big + 2` announce 1, 2 and 3 more bytes
      at `i`, counted from `base`; smaller codes count from `small`. */
  function LengthAt(src: seq<byte>, i: nat, code: nat, big: nat, small: nat, base: nat): (r: Option<(nat, nat)>)
    ensures r.Some? ==> i <= r.value.1 <= |src| || r.value.1 == i
  {
    if code < big then Some((code + small, i))
    else if code == big then
      if i + 1 <= |src| then Some((src[i] as nat + base, i + 1)) else None
    else if code == big + 1 then
      if i + 2 <= |src| then Some((Le16(src, i) + base, i + 2)) else None
    else
      if i + 3 <= |src| then Some((Le24(src, i) + base, i + 3)) else None
  }

  function ParseLiteralOrRepeat(src: seq<byte>, s: nat): (p: Parsed)
    requires s < |src|
    ensures p.Tag? ==> s < p.next <= |src|
  {
    var r := LengthAt(src, s + 1, src[s] / 8, 29, 1, 30);
    if r.None? then Truncated
    else
      var (length, next) := r.value;
      if src[s] / 4 % 2 == 1 then Tag(Repeat(length), next)
      else if length > |src| - next then Truncated
      else Tag(Literal(src[next..next + length]), next + length)
  }

  function ParseCopy1(src: seq<byte>, s: nat): (p: Parsed)
    requires s < |src|
    ensures p.Tag? ==> s < p.next <= |src|
  {
    if s + 2 > |src| then Truncated
    else
      var offset := Le16(src, s) / 64 + 1;
      var field := src[s] / 4 % 16;
      if field < 15 then Tag(Copy([], offset, field as nat + 4), s + 2)
      else if s + 3 > |src| then Truncated
      else Tag(Copy([], offset, src[s + 2] as nat + 18), s + 3)
  }

  function ParseCopy2(src: seq<byte>, s: nat): (p: Parsed)
    requires s < |src|
    ensures p.Tag? ==> s < p.next <= |src|
  {
    if s + 3 > |src| then Truncated
    else
      var r := LengthAt(src, s + 3, src[s] / 4, 61, 4, 64);
      if r.None? then Truncated
      else Tag(Copy([], Le16(src, s + 1) + MIN_COPY2_OFFSET, r.value.0), r.value.1)
  }

  function WithLits(src: seq<byte>, next: nat, count: nat, offset: nat, length: nat): (p: Parsed)
    ensures p.Tag? ==> next <= p.next <= |src|
  {
    if next + count > |src| then Truncated
    else Tag(Copy(src[next..next + count], offset, length), next + count)
  }

  function ParseFused(src: seq<byte>, s: nat): (p: Parsed)
    requires s < |src|
    ensures p.Tag? ==> s < p.next <= |src|
  {
    if s + 4 > |src| then Truncated
    else if src[s] / 4 % 2 == 0 then
      WithLits(src, s + 3, src[s] as nat / 8 % 4 + 1, Le16(src, s + 1) + MIN_COPY2_OFFSET, src[s] as nat / 32 + 4)
    else
      var r := LengthAt(src, s + 4, Le32(src, s) / 32 % 64, 61, 4, 64);
      if r.None? then Truncated
      else WithLits(src, r.value.1, src[s] as nat / 8 % 4, Le32(src, s) / 2048 + MIN_COPY3_OFFSET, r.value.0)
  }

  /** The tag at position `s`, or `Truncated` when it (or its literals) runs past the input. */
  function ParseAt(src: seq<byte>, s: nat): (p: Parsed)
    requires s < |src|
    ensures p.Tag? ==> s < p.next <= |src|
  {
    if src[s] % 4 == 0 then ParseLiteralOrRepeat(src, s)
    else if src[s] % 4 == 1 then ParseCopy1(src, s)
    else if src[s] % 4 == 2 then ParseCopy2(src, s)
    else ParseFused(src, s)
  }

  // -------- meaning --------

  /** LZ77 forward copy: each appended byte repeats the one `offset` positions back, which may
      itself have been appended by this copy. */
  function ForwardCopy(out: seq<byte>, offset: nat, length: nat): (r: seq<byte>)
    requires 1 <= offset <= |out|
    ensures |r| == |out| + length && out <= r
    decreases length
  {
    if length == 0 then out else ForwardCopy(out + [out[|out| - offset]], offset, length - 1)
  }

  function CopyMatch(out: seq<byte>, offset: nat, length: nat): (r: Option<State>)
  {
    if 1 <= offset <= |out| then Some(State(ForwardCopy(out, offset, length), offset)) else None
  }

  function Step(st: State, op: Op): (r: Option<State>)
    ensures r.Some? ==> st.out <= r.value.out
  {
    match op
    case Literal(lits) => Some(State(st.out + lits, st.last))
    case Repeat(length) => CopyMatch(st.out, st.last, length)
    case Copy(lits, offset, length) => CopyMatch(st.out + lits, offset, length)
  }

  /** Decodes `src[s..]` from `st`; `None` on any malformed tag or impossible offset. */
  function Run(src: seq<byte>, s: nat, st: State): (r: Option<State>)
    requires s <= |src|
    ensures r.Some? ==> st.out <= r.value.out
    decreases |src| - s
  {
    if s == |src| then Some(st)
    else match ParseAt(src, s)
      case Truncated => None
      case Tag(op, next) =>
        var st' := Step(st, op);
        if st'.None? then None else Run(src, next, st'.value)
  }

  /** What a whole block body decodes to when `dlen` bytes are expected. */
  function DecodeBody(src: seq<byte>, dlen: nat): Option<seq<byte>> {
    var r := Run(src, 0, INITIAL);
    if r.Some? && |r.value.out| == dlen then Some(r.value.out) else None
  }

  // -------- the grammar is self-delimiting --------

  /** From `t` on, `b` starts with everything `a` has from `s` on. */
  predicate StartsWith(b: seq<byte>, t: nat, a: seq<byte>, s: nat) {
    s <= |a| && t + (|a| - s) <= |b| && forall k :: s <= k < |a| ==> a[k] == b[k - s + t]
  }

  /** `q` is `p` seen `t` instead of `s` bytes into the input. */
  predicate SameTag(p: Parsed, s: nat, q: Parsed, t: nat) {
    match p
    case Truncated => q == Truncated
    case Tag(op, next) => next >= s && q == Tag(op, next - s + t)
  }

  lemma SameWords(a: seq<byte>, s: nat, b: seq<byte>, t: nat)
    requires StartsWith(b, t, a, s)
    ensures forall k :: s <= k && k + 2 <= |a| ==> Le16(a, k) == Le16(b, k - s + t)
    ensures forall k :: s <= k && k + 3 <= |a| ==> Le24(a, k) == Le24(b, k - s + t)
    ensures forall k :: s <= k && k + 4 <= |a| ==> Le32(a, k) == Le32(b, k - s + t)
  {
  }

  lemma SameLength(a: seq<byte>, s: nat, b: seq<byte>, t: nat, i: nat, code: nat, big: nat, small: nat, base: nat)
    requires StartsWith(b, t, a, s) && s <= i <= |a|
    requires LengthAt(a, i, code, big, small, base).Some? || |a| - s == |b| - t
    ensures var p, q := LengthAt(a, i, code, big, small, base), LengthAt(b, i - s + t, code, big, small, base);
            if p.None? then q.None? else q == Some((p.value.0, p.value.1 - s + t))
  {
    SameWords(a, s, b, t);
  }

  lemma SameSlice(a: seq<byte>, s: nat, b: seq<byte>, t: nat, i: nat, j: nat)
    requires s <= i <= j <= |a| && StartsWith(b, t, a, s)
    ensures j - s + t <= |b| && a[i..j] == b[i - s + t..j - s + t]
  {
  }

  lemma SameWithLits(a: seq<byte>, s: nat, b: seq<byte>, t: nat, next: nat, count: nat, offset: nat, length: nat)
    requires StartsWith(b, t, a, s) && s < next
    requires WithLits(a, next, count, offset, length).Tag? || |a| - s == |b| - t
    ensures SameTag(WithLits(a, next, count, offset, length), s,
                    WithLits(b, next - s + t, count, offset, length), t)
  {
    if next + count <= |a| {
      SameSlice(a, s, b, t, next, next + count);
    }
  }

  lemma SameLiteralOrRepeat(a: seq<byte>, s: nat, b: seq<byte>, t: nat)
    requires s < |a| && StartsWith(b, t, a, s)
    requires ParseLiteralOrRepeat(a, s).Tag? || |a| - s == |b| - t
    ensures SameTag(ParseLiteralOrRepeat(a, s), s, ParseLiteralOrRepeat(b, t), t)
  {
    SameLength(a, s, b, t, s + 1, a[s] / 8, 29, 1, 30);
    var r := LengthAt(a, s + 1, a[s] / 8, 29, 1, 30);
    if r.Some? && r.value.0 <= |a| - r.value.1 {
      var (length, next) := r.value;
      SameSlice(a, s, b, t, next, next + length);
    }
  }

  lemma SameCopy1(a: seq<byte>, s: nat, b: seq<byte>, t: nat)
    requires s < |a| && StartsWith(b, t, a, s)
    requires ParseCopy1(a, s).Tag? || |a| - s == |b| - t
    ensures SameTag(ParseCopy1(a, s), s, ParseCopy1(b, t), t)
  {
    SameWords(a, s, b, t);
  }

  lemma SameCopy2(a: seq<byte>, s: nat, b: seq<byte>, t: nat)
    requires s < |a| && StartsWith(b, t, a, s)
    requires ParseCopy2(a, s).Tag? || |a| - s == |b| - t
    ensures SameTag(ParseCopy2(a, s), s, ParseCopy2(b, t), t)
  {
    if s + 3 <= |a| {
      SameWords(a, s, b, t);
      SameLength(a, s, b, t, s + 3, a[s] / 4, 61, 4, 64);
    }
  }

  lemma SameFused(a: seq<byte>, s: nat, b: seq<byte>, t: nat)
    requires s < |a| && StartsWith(b, t, a, s)
    requires ParseFused(a, s).Tag? || |a| - s == |b| - t
    ensures SameTag(ParseFused(a, s), s, ParseFused(b, t), t)
  {
    hide Le16, Le24, Le32, LengthAt, WithLits;
    if s + 4 <= |a| {
      SameWords(a, s, b, t);
      var lits := a[s] as nat / 8 % 4;
      if a[s] / 4 % 2 == 0 {
        SameWithLits(a, s, b, t, s + 3, lits + 1, Le16(a, s + 1) + MIN_COPY2_OFFSET, a[s] as nat / 32 + 4);
      } else {
        var code := Le32(a, s) / 32 % 64;
        SameLength(a, s, b, t, s + 4, code, 61, 4, 64);
        var r := LengthAt(a, s + 4, code, 61, 4, 64);
        if r.Some? {
          SameWithLits(a, s, b, t, r.value.1, lits, Le32(a, s) / 2048 + MIN_COPY3_OFFSET, r.value.0);
        }
      }
    }
  }

  /** A tag is read from its own bytes alone: more input after it, or other input before it, does
      not change it, and only a truncated tag can change when the input grows. */
  lemma SameParse(a: seq<byte>, s: nat, b: seq<byte>, t: nat)
    requires s < |a| && StartsWith(b, t, a, s)
    requires ParseAt(a, s).Tag? || |a| - s == |b| - t
    ensures SameTag(ParseAt(a, s), s, ParseAt(b, t), t)
  {
    if a[s] % 4 == 0 {
      SameLiteralOrRepeat(a, s, b, t);
    } else if a[s] % 4 == 1 {
      SameCopy1(a, s, b, t);
    } else if a[s] % 4 == 2 {
      SameCopy2(a, s, b, t);
    } else {
      SameFused(a, s, b, t);
    }
  }

  lemma {:induction false} RunShift(a: seq<byte>, b: seq<byte>, s: nat, st: State)
    requires s <= |b|
    ensures Run(a + b, |a| + s, st) == Run(b, s, st)
    decreases |b| - s
  {
    hide ParseAt, Step;
    if s < |b| {
      SameParse(b, s, a + b, |a| + s);
      var p := ParseAt(b, s);
      if p.Tag? {
        var st' := Step(st, p.op);
        if st'.Some? {
          RunShift(a, b, p.next, st'.value);
        }
      }
    }
  }

  lemma {:induction false} RunPrefix(a: seq<byte>, b: seq<byte>, s: nat, st: State)
    requires s <= |a| && Run(a, s, st).Some?
    ensures Run(a + b, s, st) == Run(b, 0, Run(a, s, st).value)
    decreases |a| - s
  {
    if s == |a| {
      RunShift(a, b, 0, st);
    } else {
      SameParse(a, s, a + b, s);
      var p := ParseAt(a, s);
      RunPrefix(a, b, p.next, Step(st, p.op).value);
    }
  }

  /** Decoding a concatenation is decoding the second part from where the first one stopped. */
  lemma RunConcat(a: seq<byte>, b: seq<byte>, st: State)
    requires Run(a, 0, st).Some?
    ensures Run(a + b, 0, st) == Run(b, 0, Run(a, 0, st).value)
  {
    RunPrefix(a, b, 0, st);
  }

  // -------- matches --------

  /** The `length` bytes of `src` at `s` equal those `offset` back: a match a copy may encode. */
  predicate Matches(src: seq<byte>, s: nat, offset: nat, length: nat) {
    1 <= offset <= s && s + length <= |src| && forall i :: s <= i < s + length ==> src[i] == src[i - offset]
  }

  /** Copying along a match extends the decoded prefix by exactly the matched bytes, overlap
      included. */
  lemma {:induction false} CopyAlongMatch(src: seq<byte>, s: nat, offset: nat, length: nat)
    requires Matches(src, s, offset, length)
    ensures ForwardCopy(src[..s], offset, length) == src[..s + length]
    decreases length
  {
    if length > 0 {
      assert src[..s] + [src[..s][s - offset]] == src[..s + 1];
      CopyAlongMatch(src, s + 1, offset, length - 1);
    }
  }
}
