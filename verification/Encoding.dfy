/** What the three encoders share: the promise that the bytes written so far decode to the source
    read so far, the ways to keep it while emitting, the output budget, and match extension. */
module Encoding {
  import opened Bytes
  import opened BlockSpec
  import opened Emit

  // -------- the encoder invariant --------

  /** `out` decodes to `src[..p]` and leaves the decoder with `last` as its repeat offset. */
  ghost predicate Encoded(out: seq<byte>, src: seq<byte>, p: nat, last: nat) {
    p <= |src| && Run(out, 0, INITIAL) == Some(State(src[..p], last))
  }

  lemma NothingEncoded(src: seq<byte>)
    ensures Encoded([], src, 0, 1)
  {
  }

  lemma EncodedLiteral(out: seq<byte>, src: seq<byte>, p: nat, q: nat, last: nat)
    requires Encoded(out, src, p, last) && p <= q <= |src| <= MAX_BLOCK_SIZE
    ensures Encoded(out + LiteralBytes(src[p..q]), src, q, last)
  {
    hide LiteralBytes, Run;
    RunConcat(out, LiteralBytes(src[p..q]), INITIAL);
    RunLiteral(src[p..q], State(src[..p], last));
    assert src[..p] + src[p..q] == src[..q];
  }

  /** Bytes that make a decoder at `p` emit `src[p..q]` and then copy along a match at `q`. */
  lemma EncodedCopy(out: seq<byte>, src: seq<byte>, p: nat, q: nat, last: nat, b: seq<byte>, offset: nat, length: nat)
    requires Encoded(out, src, p, last) && p <= q && Matches(src, q, offset, length)
    requires Run(b, 0, State(src[..p], last)) == CopyMatch(src[..p] + src[p..q], offset, length)
    ensures Encoded(out + b, src, q + length, offset)
  {
    hide Run;
    RunConcat(out, b, INITIAL);
    assert src[..p] + src[p..q] == src[..q];
    CopyAlongMatch(src, q, offset, length);
  }

  lemma EncodedRepeat(out: seq<byte>, src: seq<byte>, p: nat, last: nat, length: nat)
    requires |src| <= MAX_BLOCK_SIZE && Encoded(out, src, p, last) && Matches(src, p, last, length) && length >= 1
    ensures Encoded(out + RepeatBytes(length), src, p + length, last)
  {
    hide RepeatBytes, Run;
    assert src[..p] + src[p..p] == src[..p];
    RunRepeat(length, State(src[..p], last));
    EncodedCopy(out, src, p, p, last, RepeatBytes(length), last, length);
  }

  lemma EncodedPlainCopy(out: seq<byte>, src: seq<byte>, p: nat, last: nat, offset: nat, length: nat)
    requires |src| <= MAX_BLOCK_SIZE && Encoded(out, src, p, last)
    requires Matches(src, p, offset, length) && length >= 4 && offset <= MAX_COPY3_OFFSET
    ensures Encoded(out + CopyBytes(offset, length), src, p + length, offset)
    ensures MIN_COPY2_OFFSET <= offset <= MAX_COPY2_OFFSET ==>
              Encoded(out + Copy2Bytes(offset, length), src, p + length, offset)
  {
    hide CopyBytes, Copy2Bytes, Run;
    assert src[..p] + src[p..p] == src[..p];
    RunCopy(offset, length, State(src[..p], last));
    EncodedCopy(out, src, p, p, last, CopyBytes(offset, length), offset, length);
    if MIN_COPY2_OFFSET <= offset <= MAX_COPY2_OFFSET {
      RunCopy2(offset, length, State(src[..p], last));
      EncodedCopy(out, src, p, p, last, Copy2Bytes(offset, length), offset, length);
    }
  }

  lemma EncodedCopyLits(out: seq<byte>, src: seq<byte>, p: nat, q: nat, last: nat, offset: nat, length: nat)
    requires |src| <= MAX_BLOCK_SIZE && Encoded(out, src, p, last)
    requires Matches(src, q, offset, length) && length >= 4 && p < q
    ensures q <= p + MAX_COPY2_LITS && MIN_COPY2_OFFSET <= offset <= MAX_COPY2_OFFSET ==>
              Encoded(out + CopyLits2Bytes(src[p..q], offset, length), src, q + length, offset)
    ensures q <= p + MAX_COPY3_LITS && MIN_COPY3_OFFSET <= offset <= MAX_COPY3_OFFSET ==>
              Encoded(out + CopyLits3Bytes(src[p..q], offset, length), src, q + length, offset)
  {
    hide CopyLits2Bytes, CopyLits3Bytes, Run;
    if q <= p + MAX_COPY2_LITS && MIN_COPY2_OFFSET <= offset <= MAX_COPY2_OFFSET {
      RunCopyLits2(src[p..q], offset, length, State(src[..p], last));
      EncodedCopy(out, src, p, q, last, CopyLits2Bytes(src[p..q], offset, length), offset, length);
    }
    if q <= p + MAX_COPY3_LITS && MIN_COPY3_OFFSET <= offset <= MAX_COPY3_OFFSET {
      RunCopyLits3(src[p..q], offset, length, State(src[..p], last));
      EncodedCopy(out, src, p, q, last, CopyLits3Bytes(src[p..q], offset, length), offset, length);
    }
  }

  /** A finished encoding is one the block decoder accepts and inverts. */
  lemma EncodedDecodes(out: seq<byte>, src: seq<byte>, last: nat)
    requires Encoded(out, src, |src|, last)
    ensures DecodeBody(out, |src|) == Some(src)
  {
    assert src[..|src|] == src;
  }

  // -------- emitting one tag: `d += emit_...(&mut dst[d..], ...)` --------

  method AppendLiteral(dst: array<byte>, d: nat, src: seq<byte>, p: nat, q: nat, ghost last: nat) returns (r: nat)
    requires p <= q <= |src| <= MAX_BLOCK_SIZE && d + |LiteralBytes(src[p..q])| <= dst.Length
    requires Encoded(dst[..d], src, p, last)
    modifies dst
    ensures r == d + |LiteralBytes(src[p..q])| && Encoded(dst[..r], src, q, last)
  {
    hide LiteralBytes, Encoded, Splice;
    EncodedLiteral(dst[..d], src, p, q, last);
    SplicePrefix(dst[..], d, LiteralBytes(src[p..q]));
    assert dst[..][..d] == dst[..d];
    var n := EmitLiteral(dst, d, src[p..q]);
    r := d + n;
    assert dst[..][..r] == dst[..r];
  }

  method AppendRepeat(dst: array<byte>, d: nat, src: seq<byte>, p: nat, length: nat, ghost last: nat) returns (r: nat)
    requires |src| <= MAX_BLOCK_SIZE && Matches(src, p, last, length) && length >= 1
    requires d + |RepeatBytes(length)| <= dst.Length && Encoded(dst[..d], src, p, last)
    modifies dst
    ensures r == d + |RepeatBytes(length)| && Encoded(dst[..r], src, p + length, last)
  {
    hide RepeatBytes, Encoded, Splice;
    EncodedRepeat(dst[..d], src, p, last, length);
    SplicePrefix(dst[..], d, RepeatBytes(length));
    assert dst[..][..d] == dst[..d];
    var n := EmitRepeat(dst, d, length);
    r := d + n;
    assert dst[..][..r] == dst[..r];
  }

  method AppendCopy(dst: array<byte>, d: nat, src: seq<byte>, p: nat, offset: nat, length: nat, ghost last: nat) returns (r: nat)
    requires |src| <= MAX_BLOCK_SIZE && Matches(src, p, offset, length) && length >= 4 && offset <= MAX_COPY3_OFFSET
    requires d + |CopyBytes(offset, length)| <= dst.Length && Encoded(dst[..d], src, p, last)
    modifies dst
    ensures r == d + |CopyBytes(offset, length)| && Encoded(dst[..r], src, p + length, offset)
  {
    hide CopyBytes, Encoded, Splice;
    EncodedPlainCopy(dst[..d], src, p, last, offset, length);
    SplicePrefix(dst[..], d, CopyBytes(offset, length));
    assert dst[..][..d] == dst[..d];
    var n := EmitCopy(dst, d, offset, length);
    r := d + n;
    assert dst[..][..r] == dst[..r];
  }

  method AppendCopyLits2(dst: array<byte>, d: nat, src: seq<byte>, p: nat, q: nat, offset: nat, length: nat, ghost last: nat)
    returns (r: nat)
    requires |src| <= MAX_BLOCK_SIZE && p < q <= p + MAX_COPY2_LITS && Matches(src, q, offset, length) && length >= 4
    requires MIN_COPY2_OFFSET <= offset <= MAX_COPY2_OFFSET
    requires d + |CopyLits2Bytes(src[p..q], offset, length)| <= dst.Length && Encoded(dst[..d], src, p, last)
    modifies dst
    ensures r == d + |CopyLits2Bytes(src[p..q], offset, length)| && Encoded(dst[..r], src, q + length, offset)
  {
    hide CopyLits2Bytes, Encoded, Splice;
    EncodedCopyLits(dst[..d], src, p, q, last, offset, length);
    SplicePrefix(dst[..], d, CopyLits2Bytes(src[p..q], offset, length));
    assert dst[..][..d] == dst[..d];
    var n := EmitCopyLits2(dst, d, src[p..q], offset, length);
    r := d + n;
    assert dst[..][..r] == dst[..r];
  }

  method AppendCopyLits3(dst: array<byte>, d: nat, src: seq<byte>, p: nat, q: nat, offset: nat, length: nat, ghost last: nat)
    returns (r: nat)
    requires |src| <= MAX_BLOCK_SIZE && p < q <= p + MAX_COPY3_LITS && Matches(src, q, offset, length) && length >= 4
    requires MIN_COPY3_OFFSET <= offset <= MAX_COPY3_OFFSET
    requires d + |CopyLits3Bytes(src[p..q], offset, length)| <= dst.Length && Encoded(dst[..d], src, p, last)
    modifies dst
    ensures r == d + |CopyLits3Bytes(src[p..q], offset, length)| && Encoded(dst[..r], src, q + length, offset)
  {
    hide CopyLits3Bytes, Encoded, Splice;
    EncodedCopyLits(dst[..d], src, p, q, last, offset, length);
    SplicePrefix(dst[..], d, CopyLits3Bytes(src[p..q], offset, length));
    assert dst[..][..d] == dst[..d];
    var n := EmitCopyLits3(dst, d, src[p..q], offset, length);
    r := d + n;
    assert dst[..][..r] == dst[..r];
  }

  // -------- runs of one byte --------

  predicate Uniform(src: seq<byte>) { forall i :: 0 <= i < |src| ==> src[i] == src[0] }

  /** A run of one byte that is long enough to be worth encoding. */
  predicate LongRun(src: seq<byte>) { |src| >= 32 && Uniform(src) }

  lemma RunWord(src: seq<byte>, a: nat, b: nat)
    requires Uniform(src) && a + 4 <= |src| && b + 4 <= |src|
    ensures SameWord(src, a, b)
  {
    assert src[a..a + 4] == [src[0], src[0], src[0], src[0]];
    assert src[b..b + 4] == [src[0], src[0], src[0], src[0]];
  }

  /** Extending words stops only near the end. */
  lemma RunAhead(src: seq<byte>, s: nat, offset: nat)
    requires 1 <= offset <= s <= |src| && (s + 8 <= |src| ==> src[s] != src[s - offset])
    ensures LongRun(src) ==> s + 7 >= |src| >= 32
  {
  }

  lemma RunByte(src: seq<byte>, i: nat, j: nat)
    requires i < |src| && j < |src|
    ensures Uniform(src) ==> src[i] == src[j]
  {
  }

  // -------- match extension --------

  /** `src[s..e]` equals the bytes `offset` back. */
  predicate SameBack(src: seq<byte>, s: nat, e: nat, offset: nat) {
    1 <= offset <= s <= e <= |src| && forall i :: s <= i < e ==> src[i] == src[i - offset]
  }

  /** Two 32-bit loads are equal. */
  predicate SameWord(src: seq<byte>, a: nat, b: nat)
    requires a + 4 <= |src| && b + 4 <= |src|
  {
    src[a..a + 4] == src[b..b + 4]
  }

  lemma SameWordMatches(src: seq<byte>, s: nat, c: nat)
    requires c < s && s + 4 <= |src| && SameWord(src, s, c)
    ensures SameBack(src, s, s + 4, s - c)
  {
    forall i | s <= i < s + 4 ensures src[i] == src[i - (s - c)] {
      assert src[i] == src[s..s + 4][i - s] && src[i - (s - c)] == src[c..c + 4][i - s];
    }
  }

  /** A 4-byte match at `s0`, extended back to `base` and on from `base + 4`, is one match; and the
      extension covers the original 4 bytes unless it stopped (at `e`) for another reason than a
      difference. */
  lemma ExtendedMatch(src: seq<byte>, base: nat, s0: nat, e: nat, offset: nat)
    requires SameBack(src, base, s0, offset) && SameBack(src, s0, s0 + 4, offset)
    requires SameBack(src, base + 4, e, offset)
    ensures Matches(src, base, offset, e - base)
    ensures e < s0 + 4 ==> src[e] == src[e - offset]
  {
  }

  lemma JoinedMatch(src: seq<byte>, base: nat, s0: nat, e: nat, offset: nat)
    requires SameBack(src, base, s0, offset) && SameBack(src, s0, s0 + 4, offset) && SameBack(src, s0 + 4, e, offset)
    ensures Matches(src, base, offset, e - base)
  {
  }

  /** Four equal bytes `offset` back at `s0`, extended back to `base` and on to `e`, are one match. */
  lemma RepeatMatch(src: seq<byte>, base: nat, s0: nat, e: nat, offset: nat)
    requires 1 <= offset <= base <= s0 && s0 + 4 <= e <= |src| && SameWord(src, s0, s0 - offset)
    requires SameBack(src, base, s0, offset) && SameBack(src, s0 + 4, e, offset)
    ensures Matches(src, base, offset, e - base)
  {
    hide SameBack, SameWord, Matches;
    SameWordMatches(src, s0, s0 - offset);
    JoinedMatch(src, base, s0, e, offset);
  }

  /** Where the bytes from `s` on first differ from those `offset` back, `e` if nowhere before it.
      Over 8 bytes, this is what the xor of two 64-bit loads and its trailing zeros tell. */
  function FirstDifference(src: seq<byte>, s: nat, e: nat, offset: nat): (r: nat)
    requires 1 <= offset <= s <= e <= |src|
    ensures SameBack(src, s, r, offset) && r <= e && (r < e ==> src[r] != src[r - offset])
    decreases e - s
  {
    if s == e || src[s] != src[s - offset] then s else FirstDifference(src, s + 1, e, offset)
  }

  method ExtendBack(src: seq<byte>, s0: nat, cand0: nat, nextEmit: nat) returns (s: nat, cand: nat)
    requires cand0 < s0 <= |src| && nextEmit <= s0
    ensures nextEmit <= s <= s0 && cand < s && s - cand == s0 - cand0 && SameBack(src, s, s0, s0 - cand0)
    ensures Uniform(src) ==> cand == 0 || s == nextEmit
  {
    s, cand := s0, cand0;
    while cand > 0 && s > nextEmit && src[cand - 1] == src[s - 1]
      invariant nextEmit <= s <= s0 && s - cand == s0 - cand0 && SameBack(src, s, s0, s0 - cand0)
    {
      cand := cand - 1;
      s := s - 1;
    }
  }

  /** The 8-bytes-at-a-time extension of L1, which gives up within 8 bytes of the end. */
  method ExtendWords(src: seq<byte>, s0: nat, cand0: nat) returns (s: nat)
    requires cand0 < s0 <= |src|
    ensures s0 <= s <= |src| && SameBack(src, s0, s, s0 - cand0)
    ensures s + 8 <= |src| ==> src[s] != src[s - (s0 - cand0)]
  {
    s := s0;
    var cand := cand0;
    while s + 8 <= |src|
      invariant s0 <= s && s - cand == s0 - cand0 && SameBack(src, s0, s, s0 - cand0)
    {
      var same := FirstDifference(src, s, s + 8, s - cand) - s;
      if same < 8 {
        s := s + same;
        break;
      }
      s := s + 8;
      cand := cand + 8;
    }
  }

  /** The extension of L2 and L3, which finishes byte by byte. */
  method ExtendAll(src: seq<byte>, s0: nat, cand0: nat) returns (s: nat)
    requires cand0 < s0 <= |src|
    ensures s0 <= s <= |src| && SameBack(src, s0, s, s0 - cand0)
    ensures s < |src| ==> src[s] != src[s - (s0 - cand0)]
  {
    s := s0;
    var cand := cand0;
    while s < |src|
      invariant s0 <= s && s - cand == s0 - cand0 && SameBack(src, s0, s, s0 - cand0)
    {
      if |src| - s < 8 {
        if src[s] == src[cand] {
          s := s + 1;
          cand := cand + 1;
          continue;
        }
        break;
      }
      var same := FirstDifference(src, s, s + 8, s - cand) - s;
      if same < 8 {
        s := s + same;
        break;
      }
      s := s + 8;
      cand := cand + 8;
    }
  }

  // -------- the output budget of L1 and L2 --------

  /** Where L1 and L2 give up on compressing `n` bytes. */
  function DstLimit(n: nat): nat
    requires n >= MIN_NON_LITERAL_BLOCK_SIZE
  {
    n - n / 32 - 6
  }

  /** What is left for the body of `max_encoded_len(n)` after the marker and the length varint. */
  function BodyCapacity(n: nat): (c: nat)
    requires MIN_NON_LITERAL_BLOCK_SIZE <= n <= MAX_BLOCK_SIZE
    ensures c == if n < 0x80 then n else if n < 0x4000 then n - 1 else if n < 0x20_0000 then n - 2 else n - 3
  {
    UvarintLength(n);
    n + 2 - 1 - |Uvarint(n)|
  }

  /** After an emission: it fits, and short inputs have not expanded (but for one byte once a
      literal longer than 284 bytes was emitted, which fits only once). */
  predicate Settled(n: nat, d: nat, nextEmit: nat)
    requires MIN_NON_LITERAL_BLOCK_SIZE <= n <= MAX_BLOCK_SIZE
  {
    nextEmit <= n && d <= BodyCapacity(n) && (n < 512 ==> d <= nextEmit + (if nextEmit > 284 then 1 else 0))
  }

  /** When a search begins: at most a repeat was emitted since the limit was last respected. */
  predicate Searching(n: nat, d: nat, nextEmit: nat)
    requires MIN_NON_LITERAL_BLOCK_SIZE <= n <= MAX_BLOCK_SIZE
  {
    Settled(n, d, nextEmit) && d <= DstLimit(n) + 8 && (n < 512 ==> d <= DstLimit(n) + 6)
  }

  lemma LiteralCost(lit: seq<byte>)
    requires |lit| <= MAX_BLOCK_SIZE
    ensures |LiteralBytes(lit)| == |lit| + (if |lit| == 0 then 0 else if |lit| <= 29 then 1 else if |lit| <= 284 then 2
                                            else if |lit| <= 65565 then 3 else 4)
  {
  }

  lemma RepeatCost(length: nat)
    requires length >= 4
    ensures 1 <= |RepeatBytes(length)| <= 4 && (length < 512 ==> |RepeatBytes(length)| <= 3)
    ensures |RepeatBytes(length)| <= length - 3
  {
  }

  lemma CopyCost(offset: nat, length: nat)
    requires offset >= 1 && length >= 4
    ensures |CopyBytes(offset, length)| <= 7
    ensures offset < 512 && length < 512 ==> |CopyBytes(offset, length)| <= 5
    ensures offset < 512 ==> |CopyBytes(offset, length)| <= length - 2
    ensures offset < 512 && length >= 12 ==> |CopyBytes(offset, length)| <= length - 8
  {
  }

  lemma Lits2Cost(lits: seq<byte>, offset: nat, length: nat)
    requires MIN_COPY2_OFFSET <= offset && 1 <= |lits| <= MAX_COPY2_LITS && length >= 4
    ensures |CopyLits2Bytes(lits, offset, length)| <= 7 + |lits|
    ensures length <= 11 ==> |CopyLits2Bytes(lits, offset, length)| == 3 + |lits|
    ensures length >= 12 ==> |CopyLits2Bytes(lits, offset, length)| <= |lits| + length - 8
  {
  }

  /** A literal run that respects the limit, then a repeat or copy of `cost` bytes. */
  lemma GuardedEmission(n: nat, d: nat, nextEmit: nat, lits: nat, literalCost: nat, length: nat, cost: nat)
    requires MIN_NON_LITERAL_BLOCK_SIZE <= n <= MAX_BLOCK_SIZE && Settled(n, d, nextEmit) && length >= 4
    requires d + lits <= DstLimit(n) && nextEmit + lits + length <= n
    requires literalCost == lits + (if lits == 0 then 0 else if lits <= 29 then 1 else if lits <= 284 then 2
                                    else if lits <= 65565 then 3 else 4)
    requires cost <= 7 && (n < 512 ==> cost <= 5 && cost <= length - 2)
    ensures Settled(n, d + literalCost + cost, nextEmit + lits + length)
  {
  }

  /** A copy with at most 4 fused literals, which the encoders do not hold against the limit. */
  lemma UnguardedEmission(n: nat, d: nat, nextEmit: nat, lits: nat, length: nat, cost: nat)
    requires MIN_NON_LITERAL_BLOCK_SIZE <= n <= MAX_BLOCK_SIZE && Searching(n, d, nextEmit)
    requires lits <= 4 && length >= 4 && nextEmit + lits + length <= n
    requires cost <= 11
    requires n < 512 && length <= 11 ==> cost <= 7 && cost <= lits + length - 1
    requires n < 512 && length >= 12 ==> cost <= lits + length - 8
    ensures Settled(n, d + cost, nextEmit + lits + length)
  {
  }

  /** The final literal run. */
  lemma RemainderFits(n: nat, d: nat, nextEmit: nat, literalCost: nat)
    requires MIN_NON_LITERAL_BLOCK_SIZE <= n <= MAX_BLOCK_SIZE && nextEmit < n
    requires d + n - nextEmit <= DstLimit(n)
    requires literalCost == n - nextEmit + (if n - nextEmit <= 29 then 1 else if n - nextEmit <= 284 then 2
                                            else if n - nextEmit <= 65565 then 3 else 4)
    ensures d + literalCost <= BodyCapacity(n)
  {
  }

  // -------- hash tables of positions --------

  /** Every entry lies before `bound`. */
  predicate Below(table: array<nat>, bound: nat)
    reads table
  {
    forall i :: 0 <= i < table.Length ==> table[i] < bound
  }

  lemma EntryBelow(table: array<nat>, slot: nat, bound: nat)
    requires slot < table.Length && Below(table, bound)
    ensures table[slot] < bound
  {
  }

  lemma StaysBelow(table: array<nat>, bound: nat, later: nat)
    requires Below(table, bound) && bound <= later
    ensures Below(table, later)
  {
  }

  /** What an entry keeps of a position: `u32` for inputs above 64 KiB, `u16` for the others. */
  function Slot(wide: bool, pos: nat): nat { if wide then pos % 0x1_0000_0000 else pos % 0x1_0000 }

  method Record(table: array<nat>, wide: bool, slot: nat, pos: nat, ghost bound: nat)
    requires slot < table.Length && pos < (if wide then MAX_BLOCK_SIZE else 0x1_0000) && Below(table, bound)
    modifies table
    ensures Below(table, if pos < bound then bound else pos + 1)
  {
    table[slot] := Slot(wide, pos);
  }

  /** What the L1 and L2 loops maintain: the output fits, and decodes to what was consumed. */
  ghost predicate Ready(dst: array<byte>, d: nat, src: seq<byte>, nextEmit: nat, repeat: nat)
    reads dst
  {
    && MIN_NON_LITERAL_BLOCK_SIZE <= |src| <= MAX_BLOCK_SIZE
    && BodyCapacity(|src|) <= dst.Length
    && Settled(|src|, d, nextEmit)
    && Encoded(dst[..d], src, nextEmit, repeat)
  }

  /** A search may begin once the limit is respected again. */
  lemma SearchAgain(dst: array<byte>, d: nat, src: seq<byte>, nextEmit: nat, repeat: nat)
    requires Ready(dst, d, src, nextEmit, repeat) && d <= DstLimit(|src|)
    ensures Searching(|src|, d, nextEmit)
  {
  }

  /** The tail L1 and L2 end with: the source not yet covered goes out as one literal run, or
      0 is returned when that would not pay. */
  method EmitRemainder(dst: array<byte>, d: nat, src: seq<byte>, nextEmit: nat, ghost last: nat) returns (r: nat)
    requires Ready(dst, d, src, nextEmit, last)
    modifies dst
    ensures r <= BodyCapacity(|src|) && (r > 0 ==> DecodeBody(dst[..r], |src|) == Some(src))
    ensures 0 < d <= 9 && nextEmit + 7 >= |src| >= 32 ==> 0 < r <= (if nextEmit == |src| then d else d + 8)
  {
    hide Encoded, DecodeBody;
    r := d;
    if nextEmit < |src| {
      if d + |src| - nextEmit > DstLimit(|src|) {
        return 0;
      }
      LiteralCost(src[nextEmit..|src|]);
      RemainderFits(|src|, d, nextEmit, |LiteralBytes(src[nextEmit..|src|])|);
      r := AppendLiteral(dst, d, src, nextEmit, |src|, last);
    }
    EncodedDecodes(dst[..r], src, last);
  }

  /** The literals up to `base`, which respect the limit, then a repeat up to `s`. */
  method AppendLiteralAndRepeat(dst: array<byte>, src: seq<byte>, nextEmit: nat, base: nat, s: nat, repeat: nat, d0: nat)
    returns (d: nat)
    requires Ready(dst, d0, src, nextEmit, repeat) && nextEmit <= base && base + 4 <= s
    requires d0 + (base - nextEmit) <= DstLimit(|src|) && Matches(src, base, repeat, s - base)
    modifies dst
    ensures Ready(dst, d, src, s, repeat) && Searching(|src|, d, s)
    ensures base - nextEmit <= 29 ==> d0 < d <= d0 + (base - nextEmit) + 5
  {
    hide Encoded, LiteralBytes, RepeatBytes, BodyCapacity;
    var n, lits, length := |src|, src[nextEmit..base], s - base;
    LiteralCost(lits);
    RepeatCost(length);
    GuardedEmission(n, d0, nextEmit, |lits|, |LiteralBytes(lits)|, length, |RepeatBytes(length)|);
    d := AppendLiteral(dst, d0, src, nextEmit, base, repeat);
    d := AppendRepeat(dst, d, src, base, length, repeat);
  }
}
