/** The L2 ("balanced") encoder: a long and a short hash table, lazy matching.  The two variants of
    the source differ in table sizes and in the places that test `v.big`. */
module EncodeL2 {
  import opened Bytes
  import opened BlockSpec
  import opened Emit
  import opened Encoding

  /** `longBytes` is how many bytes the long hash reads. */
  datatype Variant = Variant(big: bool, longBytes: nat, longSize: nat, shortSize: nat)
  {
    predicate Valid() { longBytes <= 7 }

    function MaxInput(): nat { if big then MAX_BLOCK_SIZE else 0x1_0000 }
  }

  const BIG := Variant(true, 7, 0x2_0000, 0x4000)
  const SMALL := Variant(false, 6, 0x8000, 0x1000)

  /** The two hashes: arbitrary functions of the next bytes into their tables. */
  datatype Hashes = Hashes(long: (Variant, seq<byte>) -> nat, short: (Variant, seq<byte>) -> nat)

  ghost predicate InRange(hashes: Hashes) {
    && (forall v: Variant, x: seq<byte> :: hashes.long(v, x) < v.longSize)
    && (forall v: Variant, x: seq<byte> :: hashes.short(v, x) < v.shortSize)
  }

  function LongAt(hashes: Hashes, v: Variant, src: seq<byte>, pos: nat): (h: nat)
    requires InRange(hashes) && pos + v.longBytes <= |src|
    ensures h < v.longSize
  {
    hashes.long(v, src[pos..pos + v.longBytes])
  }

  function ShortAt(hashes: Hashes, v: Variant, src: seq<byte>, pos: nat): (h: nat)
    requires InRange(hashes) && pos + 4 <= |src|
    ensures h < v.shortSize
  {
    hashes.short(v, src[pos..pos + 4])
  }

  datatype Outcome = Finished | GiveUp | Found

  predicate Fits(v: Variant, src: seq<byte>, long: array<nat>, short: array<nat>) {
    && v.Valid() && MIN_NON_LITERAL_BLOCK_SIZE <= |src| <= v.MaxInput()
    && long.Length == v.longSize && short.Length == v.shortSize && long != short
  }

  predicate BothBelow(long: array<nat>, short: array<nat>, bound: nat)
    reads long, short
  {
    Below(long, bound) && Below(short, bound)
  }

  lemma StillBelow(long: array<nat>, short: array<nat>, bound: nat, later: nat)
    requires BothBelow(long, short, bound) && bound <= later
    ensures BothBelow(long, short, later)
  {
  }

  /** The very beginning of a long run of one byte. */
  predicate RunBegins(src: seq<byte>, s: nat, nextEmit: nat, d: nat) { LongRun(src) && s == 1 && nextEmit == 0 && d == 0 }

  /** A 4-byte long match at `s`, or a short one unless a long one starts at `s + 1`; the entry for
      that may be `s` itself. */
  method TryCandidates(src: seq<byte>, v: Variant, hashes: Hashes, long: array<nat>, short: array<nat>,
                       s: nat, candL: nat, candS: nat)
    returns (found: bool, at: nat, candidate: nat)
    requires Fits(v, src, long, short) && InRange(hashes) && s + 1 + INPUT_MARGIN <= |src|
    requires candL < s && candS < s && BothBelow(long, short, s + 1)
    modifies long
    ensures found ==>
              && candidate < at && s <= at <= s + 1 && BothBelow(long, short, s + 2)
              && SameBack(src, at, at + 4, at - candidate) && (v.big ==> at - candidate <= MAX_COPY3_OFFSET)
    ensures !found ==> BothBelow(long, short, s + 1)
  {
    hide LongAt, InRange, SameBack, SameWord;
    var minSrcPos: int := s - MAX_COPY3_OFFSET + 1;
    if (v.big ==> candL >= minSrcPos) && SameWord(src, s, candL) {
      SameWordMatches(src, s, candL);
      return true, s, candL;
    }
    if (v.big ==> candS >= minSrcPos) && SameWord(src, s, candS) {
      var hashL2 := LongAt(hashes, v, src, s + 1);
      var candL2 := long[hashL2];
      Record(long, v.big, hashL2, s + 1, s + 1);
      if (v.big ==> candL2 > minSrcPos) && SameWord(src, s + 1, candL2) {
        SameWordMatches(src, s + 1, candL2);
        return true, s + 1, candL2;
      }
      SameWordMatches(src, s, candS);
      return true, s, candS;
    }
    return false, s, 0;
  }

  /** The search loop.  On `Found`, `nextS` is where it would have looked next. */
  method Search(dst: array<byte>, src: seq<byte>, v: Variant, hashes: Hashes, long: array<nat>, short: array<nat>,
                s0: nat, nextEmit0: nat, repeat: nat, d0: nat)
    returns (outcome: Outcome, s: nat, nextS: nat, nextEmit: nat, d: nat, candidate: nat)
    requires Fits(v, src, long, short) && InRange(hashes)
    requires Ready(dst, d0, src, nextEmit0, repeat) && Searching(|src|, d0, nextEmit0)
    requires nextEmit0 <= s0 && 1 <= repeat <= s0 && s0 + INPUT_MARGIN <= |src| && BothBelow(long, short, s0)
    modifies dst, long, short
    ensures Ready(dst, d, src, nextEmit, repeat) && Searching(|src|, d, nextEmit) && nextEmit0 <= nextEmit
    ensures nextEmit == nextEmit0 ==> s0 <= s
    ensures outcome.Found? ==>
              && candidate < s && s <= nextS && nextS + INPUT_MARGIN <= |src| && nextEmit <= s && repeat <= s
              && SameBack(src, s, s + 4, s - candidate) && (v.big ==> s - candidate <= MAX_COPY3_OFFSET)
              && BothBelow(long, short, s + 2) && BothBelow(long, short, nextS + 1)
              && s + 4 <= |src|
    ensures RunBegins(src, s0, nextEmit0, d0) ==> outcome.Found? && candidate == 0 && RunBegins(src, s, nextEmit, d)
  {
    hide Ready, Searching, LongAt, ShortAt, InRange, SameBack, SameWord, Uniform;
    s, nextEmit, d, candidate := s0, nextEmit0, d0, 0;
    var sLimit := |src| - INPUT_MARGIN;
    while true
      invariant Ready(dst, d, src, nextEmit, repeat) && Searching(|src|, d, nextEmit) && nextEmit0 <= nextEmit
      invariant nextEmit <= s && 1 <= repeat <= s && s <= sLimit && BothBelow(long, short, s)
      invariant s0 <= s
      invariant RunBegins(src, s0, nextEmit0, d0) ==> RunBegins(src, s, nextEmit, d)
      decreases |src| - s
    {
      nextS := s + (s - nextEmit) / 128 + 1;
      if nextS > sLimit {
        outcome := Finished;
        return;
      }
      var minSrcPos: int := s - MAX_COPY3_OFFSET + 1;
      var hashL, hashS := LongAt(hashes, v, src, s), ShortAt(hashes, v, src, s);
      var candL, candS := long[hashL], short[hashS];
      Record(long, v.big, hashL, s, s);
      Record(short, v.big, hashS, s, s);

      if RunBegins(src, s, nextEmit, d) {
        RunWord(src, s, candL);
        RunWord(src, s + 4, candL + 4);
      }

      // 8-byte long match.
      if (v.big ==> candL > minSrcPos) && SameWord(src, s, candL) && SameWord(src, s + 4, candL + 4) {
        SameWordMatches(src, s, candL);
        outcome, candidate := Found, candL;
        return;
      }

      // Repeat check at offset +1.
      if repeat > 0 && s >= repeat && SameWord(src, s + 1, s + 1 - repeat) {
        var next, base;
        next, base, d := EmitRepeatAhead(dst, src, s, nextEmit, repeat, d);
        if next == 0 {
          outcome := GiveUp;
          return;
        }
        s, nextEmit := next, next;
        if s >= sLimit {
          outcome := Finished;
          return;
        }
        IndexBetween(src, v, hashes, long, short, base, s);
        continue;
      }

      // 4-byte matches.
      var found, at, c := TryCandidates(src, v, hashes, long, short, s, candL, candS);
      if found {
        outcome, candidate, s := Found, c, at;
        return;
      }
      s := nextS;
    }
  }

  /** The repeat path; returns 0 when the literals before the repeat would break the limit. */
  method EmitRepeatAhead(dst: array<byte>, src: seq<byte>, s0: nat, nextEmit: nat, repeat: nat, d0: nat)
    returns (s: nat, base: nat, d: nat)
    requires Ready(dst, d0, src, nextEmit, repeat) && Searching(|src|, d0, nextEmit)
    requires nextEmit <= s0 && 1 <= repeat <= s0 && s0 + 1 + INPUT_MARGIN <= |src|
    requires SameWord(src, s0 + 1, s0 + 1 - repeat)
    modifies dst
    ensures s == 0 ==> Ready(dst, d, src, nextEmit, repeat) && Searching(|src|, d, nextEmit)
    ensures s > 0 ==> s0 + 5 <= s && Ready(dst, d, src, s, repeat) && Searching(|src|, d, s)
    ensures base <= s0 + 1
  {
    var dstLimit := DstLimit(|src|);
    hide Ready, Searching, SameBack, SameWord, Matches, Uniform;
    var i;
    base, i := ExtendBack(src, s0 + 1, s0 + 1 - repeat, nextEmit);
    if d0 + (base - nextEmit) > dstLimit {
      return 0, base, d0;
    }
    s := ExtendAll(src, s0 + 5, s0 + 5 - repeat);
    RepeatMatch(src, base, s0 + 1, s, repeat);
    d := AppendLiteralAndRepeat(dst, src, nextEmit, base, s, repeat, d0);
  }

  /** Indexes the positions inside a repeat from both ends, two at a time. */
  method IndexBetween(src: seq<byte>, v: Variant, hashes: Hashes, long: array<nat>, short: array<nat>, base: nat, s: nat)
    requires Fits(v, src, long, short) && InRange(hashes) && base + 4 <= s && s + INPUT_MARGIN <= |src|
    requires BothBelow(long, short, s)
    modifies long, short
    ensures BothBelow(long, short, s)
  {
    hide InRange, LongAt, ShortAt;
    var idx0: nat, idx1: nat := base + 1, SaturatingSub(s, 2);
    while idx0 < idx1
      invariant idx1 <= s - 2 && BothBelow(long, short, s)
    {
      Record(long, v.big, LongAt(hashes, v, src, idx0), idx0, s);
      Record(short, v.big, ShortAt(hashes, v, src, idx0 + 1), idx0 + 1, s);
      Record(long, v.big, LongAt(hashes, v, src, idx1), idx1, s);
      Record(short, v.big, ShortAt(hashes, v, src, idx1 + 1), idx1 + 1, s);
      idx0 := idx0 + 2;
      idx1 := SaturatingSub(idx1, 2);
    }
  }

  /** Indexes both ends of a match in both tables and its middle, sparsely, in the long one. */
  method IndexConsumed(src: seq<byte>, v: Variant, hashes: Hashes, long: array<nat>, short: array<nat>, base: nat, s: nat)
    requires Fits(v, src, long, short) && InRange(hashes) && base + 4 <= s && s + INPUT_MARGIN <= |src|
    requires BothBelow(long, short, s)
    modifies long, short
    ensures BothBelow(long, short, s)
  {
    hide InRange, LongAt, ShortAt;
    var idx0: nat, idx1: nat := base + 1, s - 2;
    Record(long, v.big, LongAt(hashes, v, src, idx0), idx0, s);
    Record(short, v.big, ShortAt(hashes, v, src, idx0 + 1), idx0 + 1, s);
    Record(long, v.big, LongAt(hashes, v, src, idx1), idx1, s);
    Record(short, v.big, ShortAt(hashes, v, src, idx1 + 1), idx1 + 1, s);
    idx0 := idx0 + 1;
    idx1 := SaturatingSub(idx1, 1);
    var idx2 := (idx0 + idx1 + 1) / 2;
    while idx2 < idx1
      invariant idx2 < idx1 ==> idx0 <= idx2
      invariant BothBelow(long, short, s)
    {
      Record(long, v.big, LongAt(hashes, v, src, idx0), idx0, s);
      Record(long, v.big, LongAt(hashes, v, src, idx2), idx2, s);
      idx0 := idx0 + 2;
      idx2 := idx2 + 2;
    }
  }

  /** Emits a match with the literals before it, which already respect the limit. */
  method EmitWithLiterals(dst: array<byte>, src: seq<byte>, v: Variant, nextEmit: nat, base: nat,
                          offset: nat, length: nat, ghost last: nat, d0: nat)
    returns (d: nat)
    requires Ready(dst, d0, src, nextEmit, last) && Searching(|src|, d0, nextEmit)
    requires v.Valid() && |src| <= v.MaxInput() && nextEmit <= base && d0 + (base - nextEmit) <= DstLimit(|src|)
    requires Matches(src, base, offset, length) && length >= 4 && offset <= MAX_COPY3_OFFSET
    modifies dst
    ensures Ready(dst, d, src, base + length, offset)
    ensures base == nextEmit + 1 && offset == 1 ==> d0 < d <= d0 + 9
  {
    hide Encoded, LiteralBytes, RepeatBytes, CopyBytes, CopyLits2Bytes, CopyLits3Bytes, BodyCapacity;
    var n, lits := |src|, src[nextEmit..base];
    LiteralCost(lits);
    CopyCost(offset, length);
    GuardedEmission(n, d0, nextEmit, |lits|, |LiteralBytes(lits)|, length, |CopyBytes(offset, length)|);
    if |lits| > 0 {
      if !v.big || offset <= MAX_COPY2_OFFSET {
        if |lits| > MAX_COPY2_LITS || offset < 64 {
          d := AppendLiteral(dst, d0, src, nextEmit, base, last);
          d := AppendCopy(dst, d, src, base, offset, length, last);
        } else {
          Lits2Cost(lits, offset, length);
          UnguardedEmission(n, d0, nextEmit, |lits|, length, |CopyLits2Bytes(lits, offset, length)|);
          d := AppendCopyLits2(dst, d0, src, nextEmit, base, offset, length, last);
        }
      } else if |lits| > MAX_COPY3_LITS {
        d := AppendLiteral(dst, d0, src, nextEmit, base, last);
        d := AppendCopy(dst, d, src, base, offset, length, last);
      } else {
        UnguardedEmission(n, d0, nextEmit, |lits|, length, |CopyLits3Bytes(lits, offset, length)|);
        d := AppendCopyLits3(dst, d0, src, nextEmit, base, offset, length, last);
      }
    } else {
      d := AppendCopy(dst, d0, src, base, offset, length, last);
    }
  }

  /** Extends the match found at `s0` both ways and emits it, unless it is too short for its
      offset, in which case the search resumes after `nextS`. */
  method EmitMatch(dst: array<byte>, src: seq<byte>, v: Variant, hashes: Hashes, long: array<nat>, short: array<nat>,
                   s0: nat, nextS: nat, nextEmit0: nat, candidate: nat, repeat0: nat, d0: nat)
    returns (outcome: Outcome, s: nat, nextEmit: nat, repeat: nat, d: nat)
    requires Fits(v, src, long, short) && InRange(hashes)
    requires Ready(dst, d0, src, nextEmit0, repeat0) && Searching(|src|, d0, nextEmit0)
    requires candidate < s0 && s0 <= nextS && nextEmit0 <= s0 && 1 <= repeat0 <= s0 && s0 + 4 <= |src|
    requires SameBack(src, s0, s0 + 4, s0 - candidate) && (v.big ==> s0 - candidate <= MAX_COPY3_OFFSET)
    requires BothBelow(long, short, s0 + 2) && BothBelow(long, short, nextS + 1)
    modifies dst, long, short
    ensures !outcome.GiveUp? ==> Ready(dst, d, src, nextEmit, repeat)
    ensures outcome.Found? ==>
              && nextEmit <= s && 1 <= repeat <= s && s + INPUT_MARGIN <= |src| && BothBelow(long, short, s)
              && Searching(|src|, d, nextEmit) && s0 < s && nextEmit0 <= nextEmit
              && (nextEmit == nextEmit0 || nextEmit == s)
    ensures RunBegins(src, s0, nextEmit0, d0) && candidate == 0 ==> outcome.Finished? && nextEmit == |src| && 0 < d <= 9
  {
    hide Ready, Searching, Below, InRange, SameBack, Matches, Uniform;
    var sLimit, dstLimit := |src| - INPUT_MARGIN, DstLimit(|src|);
    s, nextEmit, repeat, d := s0, nextEmit0, repeat0, d0;
    var base, candidatePos := ExtendBack(src, s, candidate, nextEmit);
    if d + (base - nextEmit) > dstLimit {
      outcome := GiveUp;
      return;
    }
    var offset := base - candidatePos;
    s := ExtendAll(src, base + 4, candidatePos + 4);
    if s < |src| {
      RunByte(src, s, s - offset);
    }
    ExtendedMatch(src, base, s0, s, offset);
    if v.big && offset > 65535 && s - base <= 4 && repeat != offset {
      s := nextS + 1;
      outcome := if s >= sLimit then Finished else Found;
      return;
    }
    d := EmitWithLiterals(dst, src, v, nextEmit, base, offset, s - base, repeat, d);
    repeat, nextEmit := offset, s;
    if s >= sLimit {
      outcome := Finished;
      return;
    }
    if d > dstLimit {
      outcome := GiveUp;
      return;
    }
    SearchAgain(dst, d, src, nextEmit, repeat);
    StillBelow(long, short, s0 + 2, s);
    IndexConsumed(src, v, hashes, long, short, base, s);
    outcome := Found;
  }

  method EncodeVariant(dst: array<byte>, src: seq<byte>, v: Variant, hashes: Hashes) returns (r: nat)
    requires v.Valid() && MIN_NON_LITERAL_BLOCK_SIZE <= |src| <= v.MaxInput() && InRange(hashes)
    requires BodyCapacity(|src|) <= dst.Length
    modifies dst
    ensures r <= BodyCapacity(|src|) && (r > 0 ==> DecodeBody(dst[..r], |src|) == Some(src))
    ensures LongRun(src) ==> 0 < r <= 14
  {
    hide Encoded, BodyCapacity, DecodeBody, InRange, SameBack, Matches, Uniform;
    var long, short := new nat[v.longSize](_ => 0), new nat[v.shortSize](_ => 0);
    var s: nat, nextEmit: nat, repeat: nat, d: nat := 1, 0, 1, 0;
    assert dst[..0] == [];
    NothingEncoded(src);
    while true
      invariant fresh(long) && fresh(short) && Fits(v, src, long, short)
      invariant Ready(dst, d, src, nextEmit, repeat) && Searching(|src|, d, nextEmit)
      invariant nextEmit <= s && 1 <= repeat <= s && s + INPUT_MARGIN <= |src| && BothBelow(long, short, s)
      invariant LongRun(src) ==> RunBegins(src, s, nextEmit, d)
      decreases |src| - nextEmit, |src| - s
    {
      var outcome, nextS, candidate;
      outcome, s, nextS, nextEmit, d, candidate :=
        Search(dst, src, v, hashes, long, short, s, nextEmit, repeat, d);
      if outcome.Finished? {
        break;
      }
      if outcome.GiveUp? {
        return 0;
      }
      outcome, s, nextEmit, repeat, d :=
        EmitMatch(dst, src, v, hashes, long, short, s, nextS, nextEmit, candidate, repeat, d);
      if outcome.Finished? {
        break;
      }
      if outcome.GiveUp? {
        return 0;
      }
    }
    r := EmitRemainder(dst, d, src, nextEmit, repeat);
  }

  /** Whatever the hash functions return, a non-zero result is the length of a body in `dst` that
      decodes to `src`, and that body fits the space `append_encoded` reserves for it.  A long run of
      one byte never makes it give up. */
  method EncodeBlock(dst: array<byte>, src: seq<byte>, hashes: Hashes) returns (r: nat)
    requires |src| <= MAX_BLOCK_SIZE && InRange(hashes)
    requires |src| >= MIN_NON_LITERAL_BLOCK_SIZE ==> BodyCapacity(|src|) <= dst.Length
    modifies dst
    ensures r > 0 ==> |src| >= MIN_NON_LITERAL_BLOCK_SIZE && r <= BodyCapacity(|src|)
    ensures r > 0 ==> DecodeBody(dst[..r], |src|) == Some(src)
    ensures LongRun(src) ==> 0 < r <= 14
  {
    hide Uniform;
    if |src| < MIN_NON_LITERAL_BLOCK_SIZE {
      return 0;
    }
    if |src| <= 0x1_0000 {
      r := EncodeVariant(dst, src, SMALL, hashes);
    } else {
      r := EncodeVariant(dst, src, BIG, hashes);
    }
  }
}
