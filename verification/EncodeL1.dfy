/** The L1 ("fastest") encoder: one hash table, greedy matching.  The two variants of the source,
    for inputs above and up to 64 KiB, differ in the constants collected in `Variant` and in the
    places that test `v.big`. */
module EncodeL1 {
  import opened Bytes
  import opened BlockSpec
  import opened Emit
  import opened Encoding

  datatype Variant = Variant(big: bool, hashBytes: nat, tableSize: nat, maxLits: nat)
  {
    predicate Valid() { hashBytes <= 6 && maxLits == (if big then MAX_COPY3_LITS else MAX_COPY2_LITS) }

    /** How far to jump ahead after `n` bytes without a match. */
    function Skip(n: nat): nat { if big then n / 64 else n / 32 }

    /** The longest input this variant is used for. */
    function MaxInput(): nat { if big then MAX_BLOCK_SIZE else 0x1_0000 }
  }

  const BIG := Variant(true, 6, 0x8000, MAX_COPY3_LITS)
  const FULL_64K := Variant(false, 5, 0x2000, MAX_COPY2_LITS)
  const SMALL_64K := Variant(false, 5, 0x400, MAX_COPY2_LITS)
  const SMALL_TABLE_MAX_LEN: nat := 0x800

  /** A hash of the next bytes into a table; nothing else is known about it. */
  type Hash = (Variant, seq<byte>) -> nat

  ghost predicate InRange(hash: Hash) {
    forall v: Variant, x: seq<byte> :: hash(v, x) < v.tableSize
  }

  function HashAt(hash: Hash, v: Variant, src: seq<byte>, pos: nat): (h: nat)
    requires InRange(hash) && pos + v.hashBytes <= |src|
    ensures h < v.tableSize
  {
    hash(v, src[pos..pos + v.hashBytes])
  }

  datatype Outcome = Finished | GiveUp | Found

  predicate Fits(v: Variant, src: seq<byte>, table: array<nat>) {
    v.Valid() && MIN_NON_LITERAL_BLOCK_SIZE <= |src| <= v.MaxInput() && table.Length == v.tableSize
  }

  /** The very beginning of a long run of one byte. */
  predicate RunBegins(src: seq<byte>, s: nat, nextEmit: nat, repeat: nat, d: nat) {
    LongRun(src) && s == 1 && nextEmit == 0 && repeat == 1 && d == 0
  }

  /** The candidates for `s`, `s + 1` and `s + 2`: the first one that matches four bytes wins. */
  method TryCandidates(src: seq<byte>, v: Variant, table: array<nat>, s: nat, c0: nat, c1: nat, hash2: nat)
    returns (found: bool, at: nat, candidate: nat)
    requires Fits(v, src, table) && s + 4 + INPUT_MARGIN <= |src| && hash2 < v.tableSize
    requires c0 < s && c1 < s && Below(table, s + 2)
    modifies table
    ensures found ==>
              && candidate < at && s <= at <= s + 2 && Below(table, at + 2)
              && SameBack(src, at, at + 4, at - candidate) && at - candidate <= MAX_COPY3_OFFSET
    ensures !found ==> Below(table, s + 3)
  {
    hide SameBack, SameWord;
    if (v.big ==> c0 + MAX_COPY3_OFFSET >= s) && SameWord(src, s, c0) {
      SameWordMatches(src, s, c0);
      return true, s, c0;
    }
    var c2 := table[hash2];
    if (v.big ==> c1 + MAX_COPY3_OFFSET > s) && SameWord(src, s + 1, c1) {
      Record(table, v.big, hash2, s + 2, s + 2);
      SameWordMatches(src, s + 1, c1);
      return true, s + 1, c1;
    }
    Record(table, v.big, hash2, s + 2, s + 2);
    if (v.big ==> c2 + MAX_COPY3_OFFSET >= s + 2) && SameWord(src, s + 2, c2) {
      SameWordMatches(src, s + 2, c2);
      return true, s + 2, c2;
    }
    return false, s, 0;
  }

  /** The search loop: looks for a 4-byte match at `s`, `s + 1` or `s + 2`, emitting any repeat
      found one byte ahead on the way. */
  method Search(dst: array<byte>, src: seq<byte>, v: Variant, hash: Hash, table: array<nat>,
                s0: nat, nextEmit0: nat, repeat: nat, d0: nat)
    returns (outcome: Outcome, s: nat, nextEmit: nat, d: nat, candidate: nat)
    requires Fits(v, src, table) && InRange(hash)
    requires Ready(dst, d0, src, nextEmit0, repeat) && Searching(|src|, d0, nextEmit0)
    requires nextEmit0 <= s0 && 1 <= repeat <= s0 && s0 + INPUT_MARGIN <= |src| && Below(table, s0)
    modifies dst, table
    ensures Ready(dst, d, src, nextEmit, repeat) && Searching(|src|, d, nextEmit) && nextEmit0 <= nextEmit
    ensures outcome.Found? ==>
              && candidate < s && s + 6 <= |src| && nextEmit <= s
              && SameBack(src, s, s + 4, s - candidate) && s - candidate <= MAX_COPY3_OFFSET
              && Below(table, s + 2)
    ensures RunBegins(src, s0, nextEmit0, repeat, d0) ==> outcome.Finished? && nextEmit + 7 >= |src| && 0 < d <= 6
  {
    hide Ready, Searching, HashAt, InRange, SameBack, SameWord, Uniform, Below;
    s, nextEmit, d, candidate := s0, nextEmit0, d0, 0;
    var sLimit := |src| - INPUT_MARGIN;
    while true
      invariant Ready(dst, d, src, nextEmit, repeat) && Searching(|src|, d, nextEmit) && nextEmit0 <= nextEmit
      invariant nextEmit <= s && 1 <= repeat <= s && s <= sLimit && Below(table, s)
      invariant RunBegins(src, s0, nextEmit0, repeat, d0) ==> s == s0 && nextEmit == nextEmit0 && d == d0
      decreases |src| - s
    {
      var nextS := s + v.Skip(s - nextEmit) + 4;
      if nextS > sLimit {
        outcome := Finished;
        return;
      }
      var hash0, hash1 := HashAt(hash, v, src, s), HashAt(hash, v, src, s + 1);
      var c0, c1 := table[hash0], table[hash1];
      EntryBelow(table, hash0, s);
      EntryBelow(table, hash1, s);
      Record(table, v.big, hash0, s, s);
      Record(table, v.big, hash1, s + 1, s + 1);
      var hash2 := HashAt(hash, v, src, s + 2);

      // Repeat check at offset +1, in wrapping arithmetic.
      var prev := (s - repeat + 1) % U64;
      if RunBegins(src, s, nextEmit, repeat, d) {
        RunWord(src, s + 1, prev);
      }
      if prev <= s && SameWord(src, s + 1, prev) {
        var next;
        next, d := EmitRepeatAhead(dst, src, s, nextEmit, repeat, d);
        if next == 0 {
          outcome := GiveUp;
          return;
        }
        StaysBelow(table, s + 2, next);
        s, nextEmit := next, next;
        if s >= sLimit {
          outcome := Finished;
          return;
        }
        continue;
      }

      var found, at, c := TryCandidates(src, v, table, s, c0, c1, hash2);
      if found {
        outcome, candidate, s := Found, c, at;
        return;
      }
      StaysBelow(table, s + 3, nextS);
      s := nextS;
    }
  }

  /** The repeat path: the 4 bytes at `s + 1` match `repeat` back.  Extends the match both ways and
      emits it; returns 0 when the literals before it would break the limit. */
  method EmitRepeatAhead(dst: array<byte>, src: seq<byte>, s0: nat, nextEmit: nat, repeat: nat, d0: nat)
    returns (s: nat, d: nat)
    requires Ready(dst, d0, src, nextEmit, repeat) && Searching(|src|, d0, nextEmit)
    requires nextEmit <= s0 && 1 <= repeat <= s0 && s0 + 4 + INPUT_MARGIN <= |src|
    requires SameWord(src, s0 + 1, s0 + 1 - repeat)
    modifies dst
    ensures s == 0 ==> d == d0 && Ready(dst, d, src, nextEmit, repeat) && Searching(|src|, d, nextEmit)
    ensures s > 0 ==> s0 + 5 <= s && Ready(dst, d, src, s, repeat) && Searching(|src|, d, s)
    ensures RunBegins(src, s0, nextEmit, repeat, d0) ==> s > 0 && s + 7 >= |src| && 0 < d <= 6
  {
    var dstLimit := DstLimit(|src|);
    hide Ready, Searching, SameBack, SameWord, Matches, Uniform;
    var base, i := ExtendBack(src, s0 + 1, s0 + 1 - repeat, nextEmit);
    if d0 + (base - nextEmit) > dstLimit {
      return 0, d0;
    }
    s := ExtendWords(src, s0 + 5, s0 + 5 - repeat);
    RunAhead(src, s, repeat);
    RepeatMatch(src, base, s0 + 1, s, repeat);
    d := AppendLiteralAndRepeat(dst, src, nextEmit, base, s, repeat, d0);
  }

  /** Extends the match found at `s0` both ways and emits it with the literals before it, fused when
      they are few.  Returns 0 when the literals would break the limit. */
  method EmitMatch(dst: array<byte>, src: seq<byte>, v: Variant, s0: nat, candidate: nat,
                   nextEmit: nat, ghost last: nat, d0: nat)
    returns (s: nat, repeat: nat, d: nat)
    requires Ready(dst, d0, src, nextEmit, last) && Searching(|src|, d0, nextEmit)
    requires v.Valid() && |src| <= v.MaxInput()
    requires candidate < s0 && s0 + 6 <= |src| && nextEmit <= s0
    requires SameBack(src, s0, s0 + 4, s0 - candidate) && s0 - candidate <= MAX_COPY3_OFFSET
    modifies dst
    ensures s > 0 ==> Ready(dst, d, src, s, repeat) && 1 <= repeat <= s && nextEmit < s
    ensures s > 0 ==> s0 + 4 <= s || |src| < s + INPUT_MARGIN
  {
    hide Encoded, Settled, Searching, BodyCapacity, SameBack, Matches;
    var base, candidatePos := ExtendBack(src, s0, candidate, nextEmit);
    repeat := base - candidatePos;
    s := ExtendWords(src, base + 4, candidatePos + 4);
    ExtendedMatch(src, base, s0, s, repeat);
    var fits;
    fits, d := EmitWithLiterals(dst, src, v, nextEmit, base, repeat, s - base, last, d0);
    if !fits {
      s := 0;
    }
  }

  method EmitWithLiterals(dst: array<byte>, src: seq<byte>, v: Variant, nextEmit: nat, base: nat,
                          repeat: nat, length: nat, ghost last: nat, d0: nat)
    returns (fits: bool, d: nat)
    requires Ready(dst, d0, src, nextEmit, last) && Searching(|src|, d0, nextEmit)
    requires v.Valid() && |src| <= v.MaxInput() && nextEmit <= base
    requires Matches(src, base, repeat, length) && length >= 4 && repeat <= MAX_COPY3_OFFSET
    modifies dst
    ensures fits ==> Ready(dst, d, src, base + length, repeat)
  {
    hide Encoded, LiteralBytes, RepeatBytes, CopyBytes, CopyLits2Bytes, CopyLits3Bytes, BodyCapacity;
    var n, lits := |src|, src[nextEmit..base];
    CopyCost(repeat, length);
    if nextEmit != base {
      if |lits| > v.maxLits || repeat < MIN_COPY2_OFFSET {
        if d0 + (base - nextEmit) > DstLimit(n) {
          return false, d0;
        }
        LiteralCost(lits);
        GuardedEmission(n, d0, nextEmit, |lits|, |LiteralBytes(lits)|, length, |CopyBytes(repeat, length)|);
        d := AppendLiteral(dst, d0, src, nextEmit, base, last);
        d := AppendCopy(dst, d, src, base, repeat, length, last);
      } else if !v.big || repeat <= MAX_COPY2_OFFSET {
        Lits2Cost(lits, repeat, length);
        UnguardedEmission(n, d0, nextEmit, |lits|, length, |CopyLits2Bytes(lits, repeat, length)|);
        d := AppendCopyLits2(dst, d0, src, nextEmit, base, repeat, length, last);
      } else {
        UnguardedEmission(n, d0, nextEmit, |lits|, length, |CopyLits3Bytes(lits, repeat, length)|);
        d := AppendCopyLits3(dst, d0, src, nextEmit, base, repeat, length, last);
      }
    } else {
      UnguardedEmission(n, d0, nextEmit, 0, length, |CopyBytes(repeat, length)|);
      d := AppendCopy(dst, d0, src, base, repeat, length, last);
    }
    fits := true;
  }

  /** The immediate-match loop: as long as the position right after a match matches again, emits
      that match without searching.  On `Found`, searching resumes at `s`. */
  method EmitImmediateMatches(dst: array<byte>, src: seq<byte>, v: Variant, hash: Hash, table: array<nat>,
                              s0: nat, repeat0: nat, d0: nat)
    returns (outcome: Outcome, s: nat, nextEmit: nat, repeat: nat, d: nat)
    requires Fits(v, src, table) && InRange(hash)
    requires Ready(dst, d0, src, s0, repeat0) && 4 <= s0 && 1 <= repeat0 <= s0
    requires s0 + INPUT_MARGIN <= |src| ==> Below(table, s0)
    modifies dst, table
    ensures s0 <= nextEmit && Ready(dst, d, src, nextEmit, repeat)
    ensures outcome.Found? ==>
              && nextEmit < s && 1 <= repeat <= s && s + INPUT_MARGIN <= |src| && Below(table, s)
              && Searching(|src|, d, nextEmit)
  {
    hide Encoded, Settled, CopyBytes, BodyCapacity, HashAt, InRange, SameWord;
    s, repeat, d := s0, repeat0, d0;
    var sLimit, dstLimit := |src| - INPUT_MARGIN, DstLimit(|src|);
    while true
      invariant s0 <= s && Ready(dst, d, src, s, repeat) && 1 <= repeat <= s
      invariant s <= sLimit ==> Below(table, s)
      decreases |src| - s
    {
      nextEmit := s;
      if s >= sLimit {
        outcome := Finished;
        return;
      }
      if d > dstLimit {
        outcome := GiveUp;
        return;
      }
      var m2Hash, currHash := HashAt(hash, v, src, s - 2), HashAt(hash, v, src, s);
      var cand := table[currHash];
      Record(table, v.big, m2Hash, s - 2, s);
      Record(table, v.big, currHash, s, s);
      if (v.big && s - cand > MAX_COPY3_OFFSET) || !SameWord(src, s, cand) {
        outcome, s := Found, s + 1;
        return;
      }
      SameWordMatches(src, s, cand);
      ghost var last := repeat;
      repeat := s - cand;
      var base := s;
      s := ExtendWords(src, s + 4, cand + 4);
      assert Matches(src, base, repeat, s - base);
      CopyCost(repeat, s - base);
      UnguardedEmission(|src|, d, base, 0, s - base, |CopyBytes(repeat, s - base)|);
      d := AppendCopy(dst, d, src, base, repeat, s - base, last);
    }
  }

  method EncodeVariant(dst: array<byte>, src: seq<byte>, v: Variant, hash: Hash) returns (r: nat)
    requires v.Valid() && MIN_NON_LITERAL_BLOCK_SIZE <= |src| <= v.MaxInput() && InRange(hash)
    requires BodyCapacity(|src|) <= dst.Length
    modifies dst
    ensures r <= BodyCapacity(|src|) && (r > 0 ==> DecodeBody(dst[..r], |src|) == Some(src))
    ensures LongRun(src) ==> 0 < r <= 14
  {
    hide Encoded, BodyCapacity, DecodeBody, Uniform;
    var table := new nat[v.tableSize](_ => 0);
    var s: nat, nextEmit: nat, repeat: nat, d: nat := 1, 0, 1, 0;
    assert dst[..0] == [];
    NothingEncoded(src);
    while true
      invariant fresh(table) && table.Length == v.tableSize
      invariant Ready(dst, d, src, nextEmit, repeat) && Searching(|src|, d, nextEmit)
      invariant nextEmit <= s && 1 <= repeat <= s && s + INPUT_MARGIN <= |src| && Below(table, s)
      invariant LongRun(src) ==> RunBegins(src, s, nextEmit, repeat, d)
      decreases |src| - nextEmit
    {
      var outcome, candidate;
      ghost var last := repeat;
      outcome, s, nextEmit, d, candidate := Search(dst, src, v, hash, table, s, nextEmit, repeat, d);
      if outcome.Finished? {
        break;
      }
      if outcome.GiveUp? {
        return 0;
      }
      s, repeat, d := EmitMatch(dst, src, v, s, candidate, nextEmit, last, d);
      if s == 0 {
        return 0;
      }
      outcome, s, nextEmit, repeat, d := EmitImmediateMatches(dst, src, v, hash, table, s, repeat, d);
      if outcome.Finished? {
        break;
      }
      if outcome.GiveUp? {
        return 0;
      }
    }
    r := EmitRemainder(dst, d, src, nextEmit, repeat);
  }

  /** Whatever the hash function returns, a non-zero result is the length of a body in `dst` that
      decodes to `src`, and that body fits the space `append_encoded` reserves for it.  A long run of
      one byte never makes it give up. */
  method EncodeBlock(dst: array<byte>, src: seq<byte>, hash: Hash) returns (r: nat)
    requires |src| <= MAX_BLOCK_SIZE && InRange(hash)
    requires |src| >= MIN_NON_LITERAL_BLOCK_SIZE ==> BodyCapacity(|src|) <= dst.Length
    modifies dst
    ensures r > 0 ==> |src| >= MIN_NON_LITERAL_BLOCK_SIZE && r <= BodyCapacity(|src|)
    ensures r > 0 ==> DecodeBody(dst[..r], |src|) == Some(src)
    ensures LongRun(src) ==> 0 < r <= 14
  {
    hide Uniform;
    if |src| < MIN_NON_LITERAL_BLOCK_SIZE {
      return 0;
    }
    if |src| <= SMALL_TABLE_MAX_LEN {
      r := EncodeVariant(dst, src, SMALL_64K, hash);
    } else if |src| <= 65536 {
      r := EncodeVariant(dst, src, FULL_64K, hash);
    } else {
      r := EncodeVariant(dst, src, BIG, hash);
    }
  }
}
