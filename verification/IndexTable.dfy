/** The in-memory seek index: a sorted table of offsets that is thinned as it grows. */
module IndexTable {
  import opened Bytes

  const MAX_INDEX_ENTRIES: nat := 0x1_0000
  const MIN_INDEX_DIST: nat := 0x10_0000
  const I64_MAX: nat := 0x7fff_ffff_ffff_ffff

  datatype OffsetPair = OffsetPair(compressed: nat, uncompressed: nat)

  const ORIGIN := OffsetPair(0, 0)

  datatype Error = Truncated | BadFormat | Invalid | Io

  /** The entries and the spacing the thinning aims at. */
  datatype Table = Table(entries: seq<OffsetPair>, est: nat)

  // -------- what each operation does to the table --------

  /** Doubles `mb` until it is a sensible spacing. */
  function InitialSpacing(mb: nat): (r: nat)
    requires mb >= 1
    ensures r >= mb && r >= MIN_INDEX_DIST
    decreases SaturatingSub(MIN_INDEX_DIST, mb)
  {
    if mb >= MIN_INDEX_DIST then mb else InitialSpacing(mb * 2)
  }

  function Max(a: nat, b: nat): nat { if a >= b then a else b }

  function Reset(maxBlock: nat): Table { Table([], InitialSpacing(Max(maxBlock, 1))) }

  /** The number of leading entries that lie less than `est` after `base`. */
  function Near(es: seq<OffsetPair>, base: nat, est: nat): (n: nat)
    ensures n <= |es| && (n < |es| ==> SaturatingSub(es[n].uncompressed, base) >= est)
  {
    if es == [] || SaturatingSub(es[0].uncompressed, base) >= est then 0 else 1 + Near(es[1..], base, est)
  }

  /** Keeps an entry, drops those too close to it, and so on. */
  function Thin(es: seq<OffsetPair>, est: nat): seq<OffsetPair>
    decreases |es|
  {
    if es == [] then [] else [es[0]] + Thin(es[1 + Near(es[1..], es[0].uncompressed, est)..], est)
  }

  function ReduceLight(t: Table): Table { Table(Thin(t.entries, t.est * 2), t.est * 2) }

  function Last(es: seq<OffsetPair>): OffsetPair
    requires es != []
  {
    es[|es| - 1]
  }

  function Add(t: Table, p: OffsetPair): Result<Table, Error> {
    if p.compressed > I64_MAX || p.uncompressed > I64_MAX then Err(Invalid)
    else if t.entries != [] && SaturatingSub(p.uncompressed, Last(t.entries).uncompressed) < t.est then Ok(t)
    else if t.entries != [] && Last(t.entries).compressed > p.compressed then Err(Invalid)
    else
      var grown := Table(t.entries + [p], t.est);
      Ok(if |grown.entries| > MAX_INDEX_ENTRIES then ReduceLight(grown) else grown)
  }

  /** Every `k`th entry, from the first one on. */
  function EveryNth(es: seq<OffsetPair>, k: nat): seq<OffsetPair>
    requires k >= 1
    decreases |es|
  {
    if es == [] then [] else [es[0]] + EveryNth(if k <= |es| then es[k..] else [], k)
  }

  /** How many entries `reduce` removes after each one it keeps. */
  function RemoveCount(len: nat, est: nat, n: nat): (r: nat)
    ensures r >= n
    decreases SaturatingSub(len, n)
  {
    if est * (n + 1) < MIN_INDEX_DIST && len / (n + 1) > 1000 then RemoveCount(len, est, n + 1) else n
  }

  function Reduce(t: Table): Table {
    if |t.entries| < MAX_INDEX_ENTRIES then t
    else
      var n := RemoveCount(|t.entries|, t.est, (|t.entries| + 1) / MAX_INDEX_ENTRIES);
      Table(EveryNth(t.entries, n + 1), t.est + t.est * n)
  }

  /** The number of leading entries at or before `offset`. */
  function CountUpTo(es: seq<OffsetPair>, offset: nat): (n: nat)
    ensures n <= |es| && (forall i :: 0 <= i < n ==> es[i].uncompressed <= offset)
    ensures n < |es| ==> es[n].uncompressed > offset
  {
    if es == [] || es[0].uncompressed > offset then 0 else 1 + CountUpTo(es[1..], offset)
  }

  function Find(es: seq<OffsetPair>, offset: nat): OffsetPair {
    var n := CountUpTo(es, offset);
    if n == 0 then ORIGIN else es[n - 1]
  }

  predicate Sorted(es: seq<OffsetPair>) {
    forall i, j :: 0 <= i <= j < |es| ==>
                     es[i].uncompressed <= es[j].uncompressed && es[i].compressed <= es[j].compressed
  }

  // -------- spacing --------

  /** Consecutive entries lie at least `est` and less than twice that apart. */
  predicate Spaced(es: seq<OffsetPair>, est: nat) {
    est >= 1 && forall i :: 0 < i < |es| ==> est <= es[i].uncompressed - es[i - 1].uncompressed < 2 * est
  }

  /** The state between two blocks, with `pos` uncompressed bytes written: the table starts at 0,
      is spaced, and the writer is less than two spacings past its last entry. */
  predicate Tracking(t: Table, pos: nat) {
    && Spaced(t.entries, t.est) && |t.entries| <= MAX_INDEX_ENTRIES
    && if t.entries == [] then pos == 0
       else t.entries[0].uncompressed == 0 && 0 <= pos - Last(t.entries).uncompressed < 2 * t.est
  }

  predicate GapsAtLeast(es: seq<OffsetPair>, est: nat) {
    forall i :: 0 < i < |es| ==> es[i].uncompressed - es[i - 1].uncompressed >= est
  }

  lemma FrontGaps(es: seq<OffsetPair>, est: nat)
    requires |es| > 1 && GapsAtLeast(es, est)
    ensures GapsAtLeast(es[..|es| - 1], est) && Last(es).uncompressed >= Last(es[..|es| - 1]).uncompressed + est
  {
  }

  /** Entries that lie at least `est` apart span that many spacings. */
  lemma {:induction false} GapSpan(es: seq<OffsetPair>, est: nat)
    requires es != [] && GapsAtLeast(es, est)
    ensures Last(es).uncompressed >= es[0].uncompressed + (|es| - 1) * est
    decreases |es|
  {
    hide GapsAtLeast;
    if |es| > 1 {
      FrontGaps(es, est);
      GapSpan(es[..|es| - 1], est);
      assert (|es| - 1) * est == (|es| - 2) * est + est;
    }
  }

  lemma SpanAtLeast(es: seq<OffsetPair>, est: nat)
    requires es != [] && Spaced(es, est)
    ensures Last(es).uncompressed >= es[0].uncompressed + (|es| - 1) * est
  {
    SpacedGaps(es, est);
    GapSpan(es, est);
  }

  lemma SpacedGaps(es: seq<OffsetPair>, est: nat)
    requires Spaced(es, est)
    ensures GapsAtLeast(es, est)
  {
  }

  lemma SpacedTail(es: seq<OffsetPair>, est: nat)
    requires |es| > 2 && Spaced(es, est)
    ensures Spaced(es[2..], est) && 2 * est <= es[2].uncompressed - es[0].uncompressed < 2 * (2 * est)
  {
    assert est <= es[1].uncompressed - es[0].uncompressed < 2 * est;
    assert est <= es[2].uncompressed - es[1].uncompressed < 2 * est;
    var rest := es[2..];
    forall i | 0 < i < |rest| ensures est <= rest[i].uncompressed - rest[i - 1].uncompressed < 2 * est {
      assert rest[i] == es[i + 2] && rest[i - 1] == es[i + 1];
    }
  }

  lemma SpacedPrepend(e: OffsetPair, tail: seq<OffsetPair>, est: nat)
    requires tail != [] && Spaced(tail, est) && est <= tail[0].uncompressed - e.uncompressed < 2 * est
    ensures Spaced([e] + tail, est)
  {
    var r := [e] + tail;
    forall i | 0 < i < |r| ensures est <= r[i].uncompressed - r[i - 1].uncompressed < 2 * est {
      if i > 1 {
        assert r[i] == tail[i - 1] && r[i - 1] == tail[i - 2];
      }
    }
  }

  lemma ShortSpaced(es: seq<OffsetPair>, est: nat)
    requires 1 <= |es| <= 2 && Spaced(es, est)
    ensures EveryNth(es, 2) == [es[0]] && Spaced([es[0]], 2 * est)
    ensures 0 <= Last(es).uncompressed - es[0].uncompressed < 2 * est
  {
    if |es| == 2 {
      assert es[2..] == [];
      assert est <= es[1].uncompressed - es[0].uncompressed < 2 * est;
    }
  }

  /** On a spaced table, dropping every other entry doubles the spacing, bounds included, keeps the
      first entry, and falls back by less than one old gap at the end. */
  lemma {:induction false} EveryOtherSpaced(es: seq<OffsetPair>, est: nat)
    requires es != [] && Spaced(es, est)
    ensures var r := EveryNth(es, 2);
            && r != [] && r[0] == es[0] && Spaced(r, 2 * est)
            && 0 <= Last(es).uncompressed - Last(r).uncompressed < 2 * est
    decreases |es|
  {
    hide Spaced;
    if |es| > 2 {
      SpacedTail(es, est);
      EveryOtherSpaced(es[2..], est);
      SpacedPrepend(es[0], EveryNth(es[2..], 2), 2 * est);
    } else {
      ShortSpaced(es, est);
    }
  }

  /** Thinning a spaced table to twice its spacing is exactly that. */
  lemma {:induction false} ThinIsEveryOther(es: seq<OffsetPair>, est: nat)
    requires Spaced(es, est)
    ensures Thin(es, est * 2) == EveryNth(es, 2)
    decreases |es|
  {
    if |es| > 1 {
      var rest := es[1..];
      assert est <= es[1].uncompressed - es[0].uncompressed < 2 * est;
      assert rest[1..] == es[2..];
      if |es| > 2 {
        SpacedTail(es, est);
        assert rest[1..][0] == es[2];
      }
      assert Near(rest, es[0].uncompressed, est * 2) == 1;
      ThinIsEveryOther(es[2..], est);
    } else if |es| == 1 {
      assert es[1..] == [];
    }
  }

  lemma {:induction false} EveryNthLength(es: seq<OffsetPair>, k: nat)
    requires k >= 1
    ensures |EveryNth(es, k)| <= |es| && (k >= 2 && |es| >= 2 ==> |EveryNth(es, k)| < |es|)
    decreases |es|
  {
    if es != [] {
      EveryNthLength(if k <= |es| then es[k..] else [], k);
    }
  }

  /** What both thinning steps do to a tracked table that overflows. */
  lemma HalvedTracks(t: Table, pos: nat)
    requires 2 <= |t.entries| <= MAX_INDEX_ENTRIES + 1 && Spaced(t.entries, t.est)
    requires t.entries[0].uncompressed == 0 && 0 <= pos - Last(t.entries).uncompressed < 2 * t.est
    ensures Tracking(Table(EveryNth(t.entries, 2), 2 * t.est), pos)
    ensures |EveryNth(t.entries, 2)| < |t.entries|
  {
    EveryOtherSpaced(t.entries, t.est);
    EveryNthLength(t.entries, 2);
  }

  /** Adding the start of the next block: no error, and with the block (at most `est` bytes) written
      the table still tracks; the spacing only doubles once the stream is 65536 spacings long. */
  lemma AddTracks(t: Table, p: OffsetPair, block: nat)
    requires Tracking(t, p.uncompressed) && 1 <= block <= t.est
    requires t.entries != [] ==> Last(t.entries).compressed <= p.compressed
    requires p.compressed <= I64_MAX && p.uncompressed <= I64_MAX
    ensures Add(t, p).Ok? && Tracking(Add(t, p).value, p.uncompressed + block)
    ensures var r := Add(t, p).value; r.est == t.est || (r.est == 2 * t.est && MAX_INDEX_ENTRIES * t.est <= p.uncompressed)
    ensures var r := Add(t, p).value; r.entries != [] && forall e <- r.entries :: e in t.entries || e == p
  {
    hide Thin, EveryNth, Spaced;
    var grown := Table(t.entries + [p], t.est);
    if t.entries == [] || p.uncompressed - Last(t.entries).uncompressed >= t.est {
      GrownSpaced(t, p);
      if |grown.entries| > MAX_INDEX_ENTRIES {
        ThinIsEveryOther(grown.entries, t.est);
        HalvedTracks(grown, p.uncompressed + block);
        SpanAtLeast(grown.entries, t.est);
        EveryNthMembers(grown.entries, 2);
        LongSpan(|grown.entries|, t.est, p.uncompressed);
      }
    }
  }

  lemma LongSpan(len: nat, est: nat, last: nat)
    requires len > MAX_INDEX_ENTRIES && last >= (len - 1) * est
    ensures MAX_INDEX_ENTRIES * est <= last
  {
    assert (len - 1) * est >= MAX_INDEX_ENTRIES * est;
  }

  lemma GrownSpaced(t: Table, p: OffsetPair)
    requires Tracking(t, p.uncompressed)
    requires t.entries == [] || p.uncompressed - Last(t.entries).uncompressed >= t.est
    ensures Spaced(t.entries + [p], t.est) && (t.entries + [p])[0].uncompressed == 0
  {
  }

  lemma {:induction false} EveryNthMembers(es: seq<OffsetPair>, k: nat)
    requires k >= 1
    ensures forall e <- EveryNth(es, k) :: e in es
    decreases |es|
  {
    if es != [] {
      EveryNthMembers(if k <= |es| then es[k..] else [], k);
    }
  }

  /** The final reduction keeps tracking, and its growth too is paid for by the stream's length. */
  lemma ReduceTracks(t: Table, pos: nat)
    requires Tracking(t, pos) && t.est >= MIN_INDEX_DIST
    ensures Tracking(Reduce(t), pos) && |Reduce(t).entries| < MAX_INDEX_ENTRIES
    ensures Reduce(t).est == t.est || (Reduce(t).est == 2 * t.est && (MAX_INDEX_ENTRIES - 1) * t.est <= pos)
    ensures forall e <- Reduce(t).entries :: e in t.entries
  {
    hide EveryNth;
    if |t.entries| == MAX_INDEX_ENTRIES {
      assert RemoveCount(|t.entries|, t.est, 1) == 1;
      HalvedTracks(t, pos);
      SpanAtLeast(t.entries, t.est);
      EveryNthMembers(t.entries, 2);
    }
  }

  /** Seeking anywhere in a tracked stream decodes less than two spacings too much. */
  lemma FindIsNear(t: Table, total: nat, q: nat)
    requires Tracking(t, total) && q <= total
    ensures Find(t.entries, q).uncompressed <= q && q - Find(t.entries, q).uncompressed < 2 * t.est
    ensures t.entries != [] ==> Find(t.entries, q) in t.entries
  {
    var n := CountUpTo(t.entries, q);
  }

  // -------- whole streams --------

  /** All the `add` calls of a writer, in order. */
  function AddAll(t: Table, calls: seq<OffsetPair>): Result<Table, Error> {
    if calls == [] then Ok(t)
    else
      var r := AddAll(t, calls[..|calls| - 1]);
      if r.Err? then r else Add(r.value, calls[|calls| - 1])
  }

  lemma AddAllAppend(t: Table, calls: seq<OffsetPair>, p: OffsetPair)
    requires AddAll(t, calls).Ok?
    ensures AddAll(t, calls + [p]) == Add(AddAll(t, calls).value, p)
  {
    assert (calls + [p])[..|calls|] == calls;
  }

  /** The calls a writer with blocks of at most `maxBlock` bytes makes up to uncompressed size
      `total`: one per block, at its start. */
  predicate BlockStarts(calls: seq<OffsetPair>, maxBlock: nat, total: nat) {
    && Sorted(calls)
    && (forall p <- calls :: p.compressed <= I64_MAX && p.uncompressed <= I64_MAX)
    && (forall i :: 0 < i < |calls| ==> 1 <= calls[i].uncompressed - calls[i - 1].uncompressed <= maxBlock)
    && if calls == [] then total == 0
       else calls[0].uncompressed == 0 && 1 <= total - Last(calls).uncompressed <= maxBlock
  }

  /** The spacing is the one the writer started with, or is paid for by the stream's length. */
  predicate SpacingPaid(est: nat, initial: nat, total: nat) {
    est >= initial && (est == initial || est * MAX_INDEX_ENTRIES <= 2 * total)
  }

  lemma SpacingStillPaid(est: nat, est': nat, initial: nat, total: nat, total': nat)
    requires SpacingPaid(est, initial, total) && total <= total'
    requires est' == est || (est' == 2 * est && MAX_INDEX_ENTRIES * est <= total')
    ensures SpacingPaid(est', initial, total')
  {
  }

  lemma EarlierStarts(maxBlock: nat, calls: seq<OffsetPair>, total: nat)
    requires calls != [] && BlockStarts(calls, maxBlock, total)
    ensures BlockStarts(calls[..|calls| - 1], maxBlock, Last(calls).uncompressed)
    ensures forall e <- calls[..|calls| - 1] :: e.compressed <= Last(calls).compressed
    ensures Last(calls).compressed <= I64_MAX && Last(calls).uncompressed <= I64_MAX
    ensures 1 <= total - Last(calls).uncompressed <= maxBlock
  {
  }

  /** The table after all calls up to size `total`. */
  ghost predicate Spacing(maxBlock: nat, calls: seq<OffsetPair>, total: nat, r: Result<Table, Error>)
    requires maxBlock >= 1
  {
    && r.Ok? && Tracking(r.value, total)
    && SpacingPaid(r.value.est, InitialSpacing(maxBlock), total)
    && (forall e <- r.value.entries :: e in calls)
    && (calls != [] ==> r.value.entries != [])
  }

  lemma SpacingStep(maxBlock: nat, front: seq<OffsetPair>, p: OffsetPair, total: nat, t: Table)
    requires maxBlock >= 1 && Spacing(maxBlock, front, p.uncompressed, Ok(t))
    requires forall e <- front :: e.compressed <= p.compressed
    requires p.compressed <= I64_MAX && p.uncompressed <= I64_MAX && 1 <= total - p.uncompressed <= maxBlock
    ensures Spacing(maxBlock, front + [p], total, Add(t, p))
  {
    hide Add, Tracking, SpacingPaid, InitialSpacing;
    if t.entries != [] {
      assert Last(t.entries) in front;
    }
    SpacingAtLeast(t, maxBlock, p.uncompressed);
    AddTracks(t, p, total - p.uncompressed);
    var t' := Add(t, p).value;
    SpacingStillPaid(t.est, t'.est, InitialSpacing(maxBlock), p.uncompressed, total);
    forall e <- t'.entries ensures e in front + [p] {
      if e != p {
        assert e in front;
      }
    }
  }

  /** For every stream a writer produces: no call fails, entries are block starts spaced in
      `[est, 2 * est)`, and the spacing grew no further than the stream's length explains. */
  lemma {:induction false} StreamSpacing(maxBlock: nat, calls: seq<OffsetPair>, total: nat)
    requires maxBlock >= 1 && BlockStarts(calls, maxBlock, total)
    ensures Spacing(maxBlock, calls, total, AddAll(Reset(maxBlock), calls))
    decreases |calls|
  {
    hide Add, BlockStarts, Spacing;
    if calls == [] {
      StartTracks(maxBlock, total);
    } else {
      var front, p := calls[..|calls| - 1], Last(calls);
      EarlierStarts(maxBlock, calls, total);
      StreamSpacing(maxBlock, front, p.uncompressed);
      SpacingOk(maxBlock, front, p.uncompressed, AddAll(Reset(maxBlock), front));
      SpacingStep(maxBlock, front, p, total, AddAll(Reset(maxBlock), front).value);
      assert calls == front + [p];
    }
  }

  lemma SpacingOk(maxBlock: nat, calls: seq<OffsetPair>, total: nat, r: Result<Table, Error>)
    requires maxBlock >= 1 && Spacing(maxBlock, calls, total, r)
    ensures r.Ok? && r == Ok(r.value)
  {
  }

  lemma StartTracks(maxBlock: nat, total: nat)
    requires maxBlock >= 1 && BlockStarts([], maxBlock, total)
    ensures Spacing(maxBlock, [], total, Ok(Reset(maxBlock)))
  {
  }

  lemma SpacingAtLeast(t: Table, maxBlock: nat, total: nat)
    requires maxBlock >= 1 && SpacingPaid(t.est, InitialSpacing(maxBlock), total)
    ensures t.est >= maxBlock && t.est >= MIN_INDEX_DIST
  {
  }

  /** The finished index of any written stream: spacing, reach and growth after the reduction that
      precedes serialisation. */
  lemma FinishedSpacing(maxBlock: nat, calls: seq<OffsetPair>, total: nat)
    requires maxBlock >= 1 && BlockStarts(calls, maxBlock, total)
    ensures AddAll(Reset(maxBlock), calls).Ok?
    ensures var t := Reduce(AddAll(Reset(maxBlock), calls).value);
            && Spaced(t.entries, t.est) && |t.entries| < MAX_INDEX_ENTRIES && t.est >= MIN_INDEX_DIST
            && (t.est == InitialSpacing(maxBlock) || t.est * (MAX_INDEX_ENTRIES - 1) <= 2 * total)
            && (forall q :: 0 <= q <= total ==>
                  var e := Find(t.entries, q); e.uncompressed <= q < e.uncompressed + 2 * t.est)
            && (forall e <- t.entries :: e in calls)
  {
    StreamSpacing(maxBlock, calls, total);
    var t0 := AddAll(Reset(maxBlock), calls).value;
    SpacingAtLeast(t0, maxBlock, total);
    ReduceTracks(t0, total);
    var t := Reduce(t0);
    forall q | 0 <= q <= total
      ensures var e := Find(t.entries, q); e.uncompressed <= q < e.uncompressed + 2 * t.est
    {
      FindIsNear(t, total, q);
    }
    if t.est == 2 * t0.est {
      assert t.est * (MAX_INDEX_ENTRIES - 1) == 2 * ((MAX_INDEX_ENTRIES - 1) * t0.est);
    }
  }
}
