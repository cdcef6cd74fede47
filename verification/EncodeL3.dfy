/** The L3 ("smallest") encoder: two candidates per hash slot, every candidate scored by the bytes
    it would save.  Nothing it proves rests on the tables, the hashes or the scores. */
module EncodeL3 {
  import opened Bytes
  import opened BlockSpec
  import opened Emit
  import opened Encoding

  const INPUT_MARGIN_L3: nat := 10
  const L_TABLE_SIZE: nat := 0x10_0000
  const S_TABLE_SIZE: nat := 0x4_0000
  const MAX_SKIP: nat := 64
  const I64_MIN: int := -0x8000_0000_0000_0000

  datatype Hashes = Hashes(long: seq<byte> -> nat, short: seq<byte> -> nat)

  ghost predicate InRange(hashes: Hashes) {
    && (forall x: seq<byte> :: hashes.long(x) < L_TABLE_SIZE)
    && (forall x: seq<byte> :: hashes.short(x) < S_TABLE_SIZE)
  }

  function LongAt(hashes: Hashes, src: seq<byte>, pos: nat): (h: nat)
    requires InRange(hashes) && pos + 8 <= |src|
    ensures h < L_TABLE_SIZE
  {
    hashes.long(src[pos..pos + 8])
  }

  function ShortAt(hashes: Hashes, src: seq<byte>, pos: nat): (h: nat)
    requires InRange(hashes) && pos + 4 <= |src|
    ensures h < S_TABLE_SIZE
  {
    hashes.short(src[pos..pos + 4])
  }

  // -------- two positions packed in 64 bits --------

  function GetCur(x: nat): nat { x % 0x1_0000_0000 }

  function GetPrev(x: nat): nat { x / 0x1_0000_0000 }

  function PackEntry(newCur: nat, prevEntry: nat): nat {
    newCur + prevEntry * 0x1_0000_0000 % U64
  }

  /** Packing keeps the new position as current and the old current as previous. */
  lemma PackedEntry(newCur: nat, prevEntry: nat)
    requires newCur < 0x1_0000_0000
    ensures GetCur(PackEntry(newCur, prevEntry)) == newCur
    ensures GetPrev(PackEntry(newCur, prevEntry)) == GetCur(prevEntry)
  {
    var q, r := prevEntry / 0x1_0000_0000, prevEntry % 0x1_0000_0000;
    DivMod(prevEntry * 0x1_0000_0000, U64, q, r * 0x1_0000_0000);
    DivMod(PackEntry(newCur, prevEntry), 0x1_0000_0000, r, newCur);
  }

  // -------- candidates --------

  datatype Match = Match(offset: nat, s: nat, length: nat, score: int, rep: bool, nextrep: bool)

  /** The empty candidate, `Match { offset, s, ..default }`. */
  function NoMatch(offset: nat, s: nat): Match { Match(offset, s, 0, 0, false, false) }

  /** What every non-empty candidate satisfies: its bytes repeat those at `offset`, near enough to
      encode, and a repeat candidate uses the decoder's live offset. */
  predicate ValidMatch(m: Match, src: seq<byte>, nextEmit: nat, repeat: nat) {
    m.length > 0 ==>
      && nextEmit <= m.s && m.offset < m.s && m.s + m.length <= |src|
      && Matches(src, m.s, m.s - m.offset, m.length)
      && (if m.rep then m.length >= 3 && m.s - m.offset == repeat
          else m.length >= 4 && m.s - m.offset < MAX_COPY3_OFFSET)
  }

  function Score(m: Match, nextEmit: nat): int
    requires nextEmit <= m.s && (!m.rep ==> m.length >= 4)
  {
    var ll := m.s - nextEmit;
    var score := m.length - EmitLiteralSizeN(ll) - m.s;
    var offset: int := m.s - m.offset;
    if m.rep then score - EmitRepeatSize(m.length)
    else
      var fused := ll > 0 && offset > 1024
                   && ((ll <= MAX_COPY2_LITS && offset < 65536 + 63 && m.length <= COPY2_LIT_MAX_LEN)
                       || ll <= MAX_COPY3_LITS);
      if offset <= 0 then I64_MIN
      else score + (if fused then 1 else 0) - EmitCopySize(offset, m.length)
  }

  function BestOf(a: Match, b: Match): (r: Match)
    ensures r == a || r == b
  {
    if b.length == 0 then a
    else if a.length == 0 then b
    else if a.score > b.score then a
    else if b.score > a.score then b
    else if a.s != b.s then (if a.s < b.s then a else b)
    else if a.nextrep != b.nextrep then (if a.nextrep then a else b)
    else if a.offset > b.offset then a else b
  }

  function NextRep(src: seq<byte>, m: Match, sLimit: nat): bool {
    var a, b := m.s + m.length + 1, m.offset + m.length + 1;
    m.s + m.length < sLimit && a + 4 <= |src| && b + 4 <= |src| && SameWord(src, a, b)
  }

  /** A candidate of at least 4 bytes at `s` for the earlier position `offset`, if there is one. */
  method MatchAt(src: seq<byte>, offset: nat, s: nat, best: Match, nextEmit: nat, sLimit: nat, ghost repeat: nat)
    returns (m: Match)
    requires nextEmit <= s && s + 4 <= |src|
    ensures ValidMatch(m, src, nextEmit, repeat)
    ensures offset == 0 ==> m.length == 0
  {
    if (best.length != 0 && best.s - best.offset == s - offset)
       || SaturatingSub(s, offset) >= MAX_COPY3_OFFSET
       || s <= offset || offset == 0 || offset + 4 > |src| {
      return NoMatch(offset, s);
    }
    if !SameWord(src, s, offset) {
      return NoMatch(offset, s);
    }
    SameWordMatches(src, s, offset);
    var end := ExtendAll(src, s + 4, offset + 4);
    var start, from := ExtendBack(src, s, offset, nextEmit);
    JoinedMatch(src, start, s, end, s - offset);
    m := Match(from, start, end - start, 0, false, false);
    m := m.(score := Score(m, nextEmit));
    if m.score <= -(m.s as int) {
      m := m.(length := 0);
    }
    m := m.(nextrep := NextRep(src, m, sLimit));
  }

  /** A candidate of at least 3 bytes at `s` for the position one repeat offset back. */
  method MatchAtRepeat(src: seq<byte>, offset: nat, s: nat, best: Match, nextEmit: nat, sLimit: nat, ghost repeat: nat)
    returns (m: Match)
    requires nextEmit <= s && s + 4 <= |src| && offset + repeat == s
    ensures ValidMatch(m, src, nextEmit, repeat)
    ensures best.rep || offset == 0 ==> m.length == 0
    ensures Uniform(src) && !best.rep && offset == 1 && s == 2 && nextEmit == 0 ==> WholeRun(m, src)
  {
    if best.rep || offset == 0 || s <= offset || offset + 3 > |src| {
      return NoMatch(offset, s);
    }
    if offset + 4 > |src| {
      return NoMatch(offset, s);
    }
    if src[offset..offset + 3] != src[s..s + 3] {
      return NoMatch(offset, s);
    }
    var end := ExtendAll(src, s + 3, offset + 3);
    if end < |src| {
      RunByte(src, end, end - repeat);
    }
    var start, from := ExtendBack(src, s, offset, nextEmit);
    ThreeByteMatch(src, start, s, end, repeat);
    m := Match(from, start, end - start, 0, true, false);
    m := m.(nextrep := NextRep(src, m, sLimit));
    m := m.(score := Score(m, nextEmit));
  }

  /** The repeat that covers a run of one byte but for its first byte. */
  predicate WholeRun(m: Match, src: seq<byte>) { m.rep && m.s == 1 && m.offset == 0 && m.length == |src| - 1 > 0 }

  lemma ThreeByteMatch(src: seq<byte>, start: nat, s: nat, end: nat, repeat: nat)
    requires repeat <= s && s + 3 <= |src| && src[s - repeat..s - repeat + 3] == src[s..s + 3]
    requires SameBack(src, start, s, repeat) && SameBack(src, s + 3, end, repeat)
    ensures Matches(src, start, repeat, end - start)
  {
    forall i | s <= i < s + 3 ensures src[i] == src[i - repeat] {
      assert src[i] == src[s..s + 3][i - s] && src[i - repeat] == src[s - repeat..s - repeat + 3][i - s];
    }
  }

  method Try(src: seq<byte>, best: Match, offset: nat, s: nat, nextEmit: nat, sLimit: nat, ghost repeat: nat)
    returns (r: Match)
    requires nextEmit <= s && s + 4 <= |src| && ValidMatch(best, src, nextEmit, repeat)
    ensures ValidMatch(r, src, nextEmit, repeat)
    ensures best.length > 0 ==> r.length > 0
    ensures offset == 0 ==> r == best
  {
    var m := MatchAt(src, offset, s, best, nextEmit, sLimit, repeat);
    r := BestOf(best, m);
  }

  method TryRepeat(src: seq<byte>, best: Match, s: nat, nextEmit: nat, sLimit: nat, repeat: nat)
    returns (r: Match)
    requires nextEmit <= s && s + 4 <= |src| && repeat <= s && ValidMatch(best, src, nextEmit, repeat)
    ensures ValidMatch(r, src, nextEmit, repeat)
    ensures best.length > 0 ==> r.length > 0
    ensures best.rep || s == repeat ==> r == best
    ensures Uniform(src) && best.length == 0 && !best.rep && s == 2 && repeat == 1 && nextEmit == 0 ==> WholeRun(r, src)
  {
    var m := MatchAtRepeat(src, s - repeat, s, best, nextEmit, sLimit, repeat);
    r := BestOf(best, m);
  }

  /** Both positions of a table entry. */
  method TryEntry(src: seq<byte>, best: Match, entry: nat, s: nat, nextEmit: nat, sLimit: nat, ghost repeat: nat)
    returns (r: Match)
    requires nextEmit <= s && s + 4 <= |src| && ValidMatch(best, src, nextEmit, repeat)
    ensures ValidMatch(r, src, nextEmit, repeat)
    ensures best.length > 0 ==> r.length > 0
    ensures entry == 0 ==> r == best
  {
    r := Try(src, best, GetCur(entry), s, nextEmit, sLimit, repeat);
    r := Try(src, r, GetPrev(entry), s, nextEmit, sLimit, repeat);
  }

  /** A candidate that ends where a table position matches the end of the best one. */
  method TryBack(src: seq<byte>, best: Match, position: nat, backL: nat, sBack: nat, nextEmit: nat, sLimit: nat, ghost repeat: nat)
    returns (r: Match)
    requires nextEmit <= sBack && sBack + 4 <= |src| && ValidMatch(best, src, nextEmit, repeat)
    ensures ValidMatch(r, src, nextEmit, repeat)
    ensures best.length > 0 ==> r.length > 0
  {
    r := best;
    if position >= backL && position - backL > 0 {
      r := Try(src, best, position - backL, sBack, nextEmit, sLimit, repeat);
    }
  }

  /** The very beginning of a long run of one byte. */
  predicate RunBegins(src: seq<byte>, s: nat, nextEmit: nat, repeat: nat) {
    LongRun(src) && s == 1 && nextEmit == 0 && repeat == 1
  }

  /** The best candidate around `s`: both tables at `s`, repeats at `s` and `s + 1`, and if there is
      one, both tables at `s + 1` and `s + 2` and a match aligned with the end of the best one. */
  method BestAt(src: seq<byte>, hashes: Hashes, long: array<nat>, short: array<nat>, s: nat, nextEmit: nat, repeat: nat)
    returns (best: Match)
    requires |src| >= MIN_NON_LITERAL_BLOCK_SIZE && InRange(hashes)
    requires long.Length == L_TABLE_SIZE && short.Length == S_TABLE_SIZE
    requires nextEmit <= s && s + INPUT_MARGIN_L3 < |src|
    ensures ValidMatch(best, src, nextEmit, repeat)
    ensures RunBegins(src, s, nextEmit, repeat) && Below(long, 1) && Below(short, 1) ==> WholeRun(best, src)
  {
    hide ValidMatch, InRange, LongAt, ShortAt, GetCur, GetPrev, Uniform;
    var sLimit := |src| - INPUT_MARGIN_L3;
    best := NoMatch(0, 0);
    EmptyIsValid(0, 0, src, nextEmit, repeat);
    if s > 0 {
      best := TryEntry(src, best, long[LongAt(hashes, src, s)], s, nextEmit, sLimit, repeat);
      best := TryEntry(src, best, short[ShortAt(hashes, src, s)], s, nextEmit, sLimit, repeat);
    }
    if repeat > 0 && s >= repeat {
      best := TryRepeat(src, best, s, nextEmit, sLimit, repeat);
      if s + 1 >= repeat && s < sLimit {
        best := TryRepeat(src, best, s + 1, nextEmit, sLimit, repeat);
      }
    }
    if best.length == 0 {
      return;
    }
    if s + 1 + 8 <= |src| {
      best := TryEntry(src, best, short[ShortAt(hashes, src, s + 1)], s + 1, nextEmit, sLimit, repeat);
      best := TryEntry(src, best, long[LongAt(hashes, src, s + 1)], s + 1, nextEmit, sLimit, repeat);
      if s + 2 + 8 <= |src| {
        if repeat > 0 && s + 2 >= repeat {
          best := TryRepeat(src, best, s + 2, nextEmit, sLimit, repeat);
        }
        best := TryEntry(src, best, short[ShortAt(hashes, src, s + 2)], s + 2, nextEmit, sLimit, repeat);
        best := TryEntry(src, best, long[LongAt(hashes, src, s + 2)], s + 2, nextEmit, sLimit, repeat);
      }
    }
    ValidStarts(best, src, nextEmit, repeat);
    var sAt := best.s + best.length - 1;
    if sAt < sLimit && best.length > 3 {
      var sBack, backL := best.s + 1, best.length - 2;
      if sBack + 8 <= |src| && sAt + 8 <= |src| {
        var next := long[LongAt(hashes, src, sAt)];
        best := TryBack(src, best, GetCur(next), backL, sBack, nextEmit, sLimit, repeat);
        best := TryBack(src, best, GetPrev(next), backL, sBack, nextEmit, sLimit, repeat);
        next := short[ShortAt(hashes, src, sAt)];
        best := TryBack(src, best, GetCur(next), backL, sBack, nextEmit, sLimit, repeat);
        best := TryBack(src, best, GetPrev(next), backL, sBack, nextEmit, sLimit, repeat);
      }
    }
  }

  lemma EmptyIsValid(offset: nat, s: nat, src: seq<byte>, nextEmit: nat, repeat: nat)
    ensures ValidMatch(NoMatch(offset, s), src, nextEmit, repeat)
  {
  }

  lemma ValidStarts(m: Match, src: seq<byte>, nextEmit: nat, repeat: nat)
    requires ValidMatch(m, src, nextEmit, repeat) && m.length > 0
    ensures nextEmit <= m.s && m.offset < m.s
  {
  }

  // -------- emission --------

  /** Appends the chosen candidate with the literals before it and says where the source continues:
      a long match after few literals is cut to what a fused Copy2 holds. */
  method EmitBest(out: seq<byte>, src: seq<byte>, best: Match, nextEmit: nat, ghost repeat: nat)
    returns (r: seq<byte>, sAfter: nat)
    requires |src| <= MAX_BLOCK_SIZE && Encoded(out, src, nextEmit, repeat)
    requires best.length > 0 && ValidMatch(best, src, nextEmit, repeat)
    ensures nextEmit < sAfter <= |src| && Encoded(r, src, sAfter, best.s - best.offset)
    ensures WholeRun(best, src) && |src| >= 32 && out == [] && nextEmit == 0 ==> sAfter == |src| && 0 < |r| <= 6
  {
    hide Encoded, LiteralBytes, RepeatBytes, CopyBytes, Copy2Bytes, CopyLits2Bytes, CopyLits3Bytes;
    var base, offset, length := best.s, best.s - best.offset, best.length;
    sAfter := base + length;
    var lits := src[nextEmit..base];
    EncodedLiteral(out, src, nextEmit, base, repeat);
    var split := out + LiteralBytes(lits);
    LiteralCost(lits);
    if best.rep {
      EncodedRepeat(split, src, base, repeat, length);
      if length >= 4 {
        RepeatCost(length);
      }
      r := split + RepeatBytes(length);
    } else if |lits| > 0 {
      EncodedPlainCopy(split, src, base, repeat, offset, length);
      EncodedCopyLits(out, src, nextEmit, base, repeat, offset, length);
      if offset <= MAX_COPY2_OFFSET {
        var mustSplitEmit := |lits| > MAX_COPY2_LITS || offset < 64
                             || (offset <= MAX_COPY1_OFFSET && length > COPY2_LIT_MAX_LEN);
        if mustSplitEmit {
          if 18 < length <= 64 && offset >= 64 {
            r := split + Copy2Bytes(offset, length);
          } else {
            r := split + CopyBytes(offset, length);
          }
        } else if length > 11 {
          EncodedCopyLits(out, src, nextEmit, base, repeat, offset, 11);
          r := out + CopyLits2Bytes(lits, offset, 11);
          sAfter := base + 11;
        } else {
          r := out + CopyLits2Bytes(lits, offset, length);
        }
      } else if |lits| > MAX_COPY3_LITS {
        r := split + CopyBytes(offset, length);
      } else {
        r := out + CopyLits3Bytes(lits, offset, length);
      }
    } else {
      EncodedPlainCopy(out, src, base, repeat, offset, length);
      if 18 < length <= 64 && 64 <= offset <= MAX_COPY2_OFFSET {
        r := out + Copy2Bytes(offset, length);
      } else {
        r := out + CopyBytes(offset, length);
      }
    }
  }

  method FillTables(src: seq<byte>, hashes: Hashes, long: array<nat>, short: array<nat>, from: nat, s: nat)
    requires InRange(hashes) && long.Length == L_TABLE_SIZE && short.Length == S_TABLE_SIZE && long != short
    requires s + INPUT_MARGIN_L3 <= |src|
    modifies long, short
  {
    hide InRange, LongAt, ShortAt, PackEntry;
    var i := from;
    while i < s {
      var long0, short0 := LongAt(hashes, src, i), ShortAt(hashes, src, i);
      long[long0] := PackEntry(i, long[long0]);
      short[short0] := PackEntry(i, short[short0]);
      i := i + 1;
    }
  }

  /** Whatever the hashes return and whichever candidates win, a non-empty result decodes to `src`.
      A long run of one byte never makes it give up.  The search position can move backwards: a
      truncated fused copy resumes before positions the tables already hold. */
  method EncodeBlock(src: seq<byte>, hashes: Hashes) returns (r: seq<byte>)
    requires |src| <= MAX_BLOCK_SIZE && InRange(hashes)
    ensures |r| > 0 ==> |src| >= MIN_NON_LITERAL_BLOCK_SIZE && DecodeBody(r, |src|) == Some(src)
    ensures LongRun(src) ==> 0 < |r| <= 14
  {
    hide Encoded, LiteralBytes, DecodeBody, ValidMatch, InRange, LongAt, ShortAt, PackEntry, Uniform;
    if |src| < MIN_NON_LITERAL_BLOCK_SIZE {
      return [];
    }
    var long, short := new nat[L_TABLE_SIZE](_ => 0), new nat[S_TABLE_SIZE](_ => 0);
    var sLimit, dstLimit := |src| - INPUT_MARGIN_L3, |src| - 5;
    var nextEmit: nat, s: nat, repeat: nat := 0, 1, 1;
    r := [];
    NothingEncoded(src);
    while true
      invariant fresh(long) && fresh(short) && long != short
      invariant long.Length == L_TABLE_SIZE && short.Length == S_TABLE_SIZE
      invariant Encoded(r, src, nextEmit, repeat) && nextEmit <= s && nextEmit <= |src|
      invariant s + INPUT_MARGIN_L3 <= |src| || s == 1
      invariant LongRun(src) ==> RunBegins(src, s, nextEmit, repeat) && r == [] && Below(long, 1) && Below(short, 1)
      decreases |src| - nextEmit, |src| - s
    {
      var best := NoMatch(0, 0);
      EmptyIsValid(0, 0, src, nextEmit, repeat);
      ghost var s0 := s;
      while best.length == 0
        invariant fresh(long) && fresh(short) && long != short
        invariant long.Length == L_TABLE_SIZE && short.Length == S_TABLE_SIZE
        invariant s0 <= s && nextEmit <= s && (best.length > 0 ==> s < sLimit)
        invariant ValidMatch(best, src, nextEmit, repeat)
        invariant s + INPUT_MARGIN_L3 <= |src| || s == 1
        invariant LongRun(src) ==> s == 1 && if best.length == 0 then Below(long, 1) && Below(short, 1) else WholeRun(best, src)
        decreases |src| - s, if best.length == 0 then 1 else 0
      {
        var step := (s - nextEmit) / 256;
        var nextS := if step + 1 > MAX_SKIP then s + MAX_SKIP else s + step + 1;
        if nextS > sLimit {
          break;
        }
        best := BestAt(src, hashes, long, short, s, nextEmit, repeat);
        var hashL, hashS := LongAt(hashes, src, s), ShortAt(hashes, src, s);
        long[hashL] := PackEntry(s, long[hashL]);
        short[hashS] := PackEntry(s, short[hashS]);
        if best.length == 0 {
          s := nextS;
        }
      }
      if best.length == 0 {
        break;
      }
      var startIdx := s + 1;
      ValidStarts(best, src, nextEmit, repeat);
      if |r| + (best.s - nextEmit) > dstLimit {
        return [];
      }
      var base, offset: int := best.s, best.s - best.offset;
      // Bail if the match does not justify its encoding cost.
      if !best.rep && best.length <= 4
         && (offset > 65535 || (MAX_COPY1_OFFSET < offset <= MAX_COPY2_OFFSET && base - nextEmit > MAX_COPY2_LITS)) {
        s := startIdx + 1;
        if s >= sLimit {
          break;
        }
        continue;
      }
      r, s := EmitBest(r, src, best, nextEmit, repeat);
      repeat := best.s - best.offset;
      nextEmit := s;
      if s >= sLimit {
        break;
      }
      if |r| > dstLimit {
        return [];
      }
      FillTables(src, hashes, long, short, startIdx, s);
    }
    if nextEmit < |src| {
      var litLen := |src| - nextEmit;
      if |r| + litLen + EmitLiteralSizeN(litLen) > dstLimit {
        return [];
      }
      EncodedLiteral(r, src, nextEmit, |src|, repeat);
      r := r + LiteralBytes(src[nextEmit..]);
      assert src[nextEmit..] == src[nextEmit..|src|];
    }
    EncodedDecodes(r, src, repeat);
  }
}
