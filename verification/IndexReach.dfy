/** How far the entries of a table reach when the first block sets the spacing, whatever the sizes of
    the blocks after it. */
module IndexReach {
  import opened Bytes
  import opened IndexTable
  import Index
  import IndexStream

  /** Every start has an entry at or before it, less than `d` bytes before. */
  ghost predicate Reaches(es: seq<OffsetPair>, starts: seq<OffsetPair>, d: nat) {
    forall p <- starts :: exists e <- es :: Before(e, p, d)
  }

  predicate Before(e: OffsetPair, p: OffsetPair, d: nat) {
    e.compressed <= p.compressed && e.uncompressed <= p.uncompressed < e.uncompressed + d
  }

  lemma ReachStep(es: seq<OffsetPair>, es': seq<OffsetPair>, starts: seq<OffsetPair>, d: nat, d': nat)
    requires Reaches(es, starts, d) && Reaches(es', es, d' + 1)
    ensures Reaches(es', starts, d + d')
  {
    forall p | p in starts ensures exists e <- es' :: Before(e, p, d + d') {
      var e :| e in es && Before(e, p, d);
      var e' :| e' in es' && Before(e', e, d' + 1);
      assert Before(e', p, d + d');
    }
  }

  lemma ReachMore(es: seq<OffsetPair>, starts: seq<OffsetPair>, d: nat, d': nat)
    requires Reaches(es, starts, d) && d <= d'
    ensures Reaches(es, starts, d')
  {
    forall p | p in starts ensures exists e <- es :: Before(e, p, d') {
      var e :| e in es && Before(e, p, d);
      assert Before(e, p, d');
    }
  }

  // -------- thinning --------

  lemma {:induction false} NearAll(es: seq<OffsetPair>, base: nat, est: nat)
    ensures forall i :: 0 <= i < Near(es, base, est) ==> SaturatingSub(es[i].uncompressed, base) < est
    decreases |es|
  {
    if es != [] && SaturatingSub(es[0].uncompressed, base) < est {
      NearAll(es[1..], base, est);
      forall i | 0 <= i < Near(es, base, est) ensures SaturatingSub(es[i].uncompressed, base) < est {
        if i > 0 {
          assert es[1..][i - 1] == es[i];
        }
      }
    }
  }

  /** Every dropped entry lies less than the new spacing after one that was kept. */
  lemma {:induction false} ThinReaches(es: seq<OffsetPair>, est: nat)
    requires Sorted(es) && est >= 1
    ensures Reaches(Thin(es, est), es, est)
    decreases |es|
  {
    hide Sorted, Near, Reaches;
    if es == [] {
      NothingReached(est);
    } else {
      var n := Near(es[1..], es[0].uncompressed, est);
      SortedRest(es, 1 + n);
      ThinReaches(es[1 + n..], est);
      NearFirst(es, est);
      FirstReaches(es, Thin(es[1 + n..], est), 1 + n, est);
    }
  }

  /** The entries dropped after the first one lie less than the spacing after it. */
  lemma NearFirst(es: seq<OffsetPair>, est: nat)
    requires es != [] && Sorted(es) && est >= 1
    ensures forall i :: 0 <= i < 1 + Near(es[1..], es[0].uncompressed, est) ==> Before(es[0], es[i], est)
  {
    hide Sorted, Near;
    NearAll(es[1..], es[0].uncompressed, est);
    forall i | 0 <= i < 1 + Near(es[1..], es[0].uncompressed, est) ensures Before(es[0], es[i], est) {
      FirstBefore(es, i);
      assert i > 0 ==> es[1..][i - 1] == es[i];
    }
  }

  lemma NothingReached(d: nat)
    ensures Reaches([], [], d)
  {
  }

  /** The first `k` entries are reached from the first of them, the others from `later`. */
  lemma FirstReaches(es: seq<OffsetPair>, later: seq<OffsetPair>, k: nat, d: nat)
    requires es != [] && forall i :: 0 <= i < k && i < |es| ==> Before(es[0], es[i], d)
    requires Reaches(later, if k <= |es| then es[k..] else [], d)
    ensures Reaches([es[0]] + later, es, d)
  {
    var kept := [es[0]] + later;
    forall p | p in es ensures exists e <- kept :: Before(e, p, d) {
      var i :| 0 <= i < |es| && es[i] == p;
      if i < k {
        assert Before(kept[0], p, d);
      } else {
        var e := Reached(later, es[k..], d, i - k);
        assert e in kept;
      }
    }
  }

  lemma Reached(es: seq<OffsetPair>, starts: seq<OffsetPair>, d: nat, i: nat) returns (e: OffsetPair)
    requires Reaches(es, starts, d) && i < |starts|
    ensures e in es && Before(e, starts[i], d)
  {
    assert starts[i] in starts;
    e :| e in es && Before(e, starts[i], d);
  }

  lemma SortedRest(es: seq<OffsetPair>, i: nat)
    requires Sorted(es) && i <= |es|
    ensures Sorted(es[i..])
  {
  }

  lemma FirstBefore(es: seq<OffsetPair>, i: nat)
    requires Sorted(es) && i < |es|
    ensures es[0].compressed <= es[i].compressed && es[0].uncompressed <= es[i].uncompressed
  {
  }

  // -------- adding --------

  lemma AppendReaches(es: seq<OffsetPair>, p: OffsetPair, starts: seq<OffsetPair>, d: nat)
    requires Reaches(es, starts, d) && d >= 1
    ensures Reaches(es + [p], starts + [p], d)
  {
    forall q | q in starts + [p] ensures exists e <- es + [p] :: Before(e, q, d) {
      if q in starts {
        var e :| e in es && Before(e, q, d);
        assert e in es + [p];
      } else {
        assert (es + [p])[|es|] == p && Before(p, q, d);
      }
    }
  }

  lemma SkipReaches(es: seq<OffsetPair>, p: OffsetPair, starts: seq<OffsetPair>, d: nat)
    requires Reaches(es, starts, d) && es != [] && Before(Last(es), p, d)
    ensures Reaches(es, starts + [p], d)
  {
    forall q | q in starts + [p] ensures exists e <- es :: Before(e, q, d) {
      if q !in starts {
        assert Last(es) in es;
      }
    }
  }

  /** What is known of the table after `starts`. */
  ghost predicate Covers(t: Table, starts: seq<OffsetPair>) {
    && t.est >= 1 && Sorted(t.entries) && GapsAtLeast(t.entries, t.est) && Reaches(t.entries, starts, 2 * t.est)
    && (starts != [] ==> t.entries != [] && t.entries[0] == starts[0])
    && (forall e <- t.entries :: e in starts)
  }

  lemma SortedSnoc(es: seq<OffsetPair>, p: OffsetPair, est: nat)
    requires Sorted(es) && GapsAtLeast(es, est)
    requires es != [] ==> Last(es).compressed <= p.compressed && Last(es).uncompressed + est <= p.uncompressed
    ensures Sorted(es + [p]) && GapsAtLeast(es + [p], est)
  {
  }

  /** Recording one more start.  Thinning adds the doubled spacing to a reach that was less than it. */
  lemma AddCovers(t: Table, starts: seq<OffsetPair>, p: OffsetPair)
    requires Covers(t, starts) && p.compressed <= I64_MAX && p.uncompressed <= I64_MAX
    requires forall q <- starts :: q.compressed <= p.compressed && q.uncompressed <= p.uncompressed
    ensures Add(t, p).Ok? && Covers(Add(t, p).value, starts + [p])
  {
    hide Sorted, Reaches, Thin, GapsAtLeast;
    if t.entries != [] {
      assert Last(t.entries) in starts;
    }
    if t.entries != [] && p.uncompressed - Last(t.entries).uncompressed < t.est {
      SkipReaches(t.entries, p, starts, 2 * t.est);
    } else {
      var es := t.entries + [p];
      SortedSnoc(t.entries, p, t.est);
      AppendReaches(t.entries, p, starts, 2 * t.est);
      if |es| > MAX_INDEX_ENTRIES {
        ThinReaches(es, t.est * 2);
        ReachStep(es, Thin(es, t.est * 2), starts + [p], 2 * t.est, t.est * 2 - 1);
        ReachMore(Thin(es, t.est * 2), starts + [p], 4 * t.est - 1, 4 * t.est);
        ThinSound(es, t.est * 2);
      }
    }
  }

  lemma ThinSound(es: seq<OffsetPair>, est: nat)
    requires Sorted(es) && es != []
    ensures var r := Thin(es, est);
            Sorted(r) && GapsAtLeast(r, est) && r != [] && r[0] == es[0] && forall e <- r :: e in es
  {
    hide Sorted, GapsAtLeast;
    Index.ThinSorted(es, est);
    IndexStream.ThinGaps(es, est);
  }

  /** The starts of all blocks recorded, the first one setting the spacing. */
  lemma {:induction false} AddAllCovers(first: nat, starts: seq<OffsetPair>, maxBlock: nat, total: nat)
    requires first >= 1 && BlockStarts(starts, maxBlock, total)
    ensures var r := AddAll(Table([], first), starts); r.Ok? && Covers(r.value, starts)
    decreases |starts|
  {
    hide Add, BlockStarts, Covers;
    if starts == [] {
      NothingCovered(first);
    } else {
      var front, p := starts[..|starts| - 1], Last(starts);
      EarlierStarts(maxBlock, starts, total);
      EarlierBefore(starts, maxBlock, total);
      AddAllCovers(first, front, maxBlock, p.uncompressed);
      AddCovers(AddAll(Table([], first), front).value, front, p);
      assert starts == front + [p];
    }
  }

  lemma NothingCovered(first: nat)
    requires first >= 1
    ensures Covers(Table([], first), [])
  {
  }

  lemma EarlierBefore(starts: seq<OffsetPair>, maxBlock: nat, total: nat)
    requires starts != [] && BlockStarts(starts, maxBlock, total)
    ensures forall q <- starts[..|starts| - 1] :: q.compressed <= Last(starts).compressed && q.uncompressed <= Last(starts).uncompressed
  {
  }

  // -------- the final reduction --------

  /** Consecutive entries lie at most `gap` bytes apart. */
  predicate GapsAtMost(es: seq<OffsetPair>, gap: nat) {
    forall i :: 0 < i < |es| ==> es[i].uncompressed - es[i - 1].uncompressed <= gap
  }

  predicate Ascending(es: seq<OffsetPair>) {
    forall i, j :: 0 <= i < j < |es| ==> es[i].uncompressed < es[j].uncompressed && es[i].compressed < es[j].compressed
  }

  /** Between two entries, every start is reached from the first of them, so the second is no further
      than the reach and one block away. */
  lemma GapBound(t: Table, starts: seq<OffsetPair>, maxBlock: nat, total: nat)
    requires Covers(t, starts) && BlockStarts(starts, maxBlock, total) && Ascending(t.entries)
    ensures GapsAtMost(t.entries, 2 * t.est + maxBlock)
  {
    var es := t.entries;
    forall i | 0 < i < |es| ensures es[i].uncompressed - es[i - 1].uncompressed <= 2 * t.est + maxBlock {
      GapAt(t, starts, maxBlock, total, i);
    }
  }

  lemma GapAt(t: Table, starts: seq<OffsetPair>, maxBlock: nat, total: nat, i: nat)
    requires Covers(t, starts) && BlockStarts(starts, maxBlock, total) && Ascending(t.entries) && 0 < i < |t.entries|
    ensures t.entries[i].uncompressed - t.entries[i - 1].uncompressed <= 2 * t.est + maxBlock
  {
    hide Sorted, GapsAtLeast, Reaches;
    var es := t.entries;
    assert es[i] in starts;
    assert es[i - 1].uncompressed < es[i].uncompressed;
    var p := StartBefore(starts, maxBlock, total, es[i]);
    var k := EntryFor(es, starts, 2 * t.est, p);
    assert k < i;
    assert k == i - 1 || es[k].uncompressed < es[i - 1].uncompressed;
  }

  /** The start before one that is not the first. */
  lemma StartBefore(starts: seq<OffsetPair>, maxBlock: nat, total: nat, e: OffsetPair) returns (p: OffsetPair)
    requires BlockStarts(starts, maxBlock, total) && e in starts && e.uncompressed > 0
    ensures p in starts && p.uncompressed < e.uncompressed <= p.uncompressed + maxBlock
  {
    hide Sorted;
    var j :| 0 <= j < |starts| && starts[j] == e;
    p := starts[j - 1];
  }

  lemma EntryFor(es: seq<OffsetPair>, starts: seq<OffsetPair>, d: nat, p: OffsetPair) returns (k: nat)
    requires Reaches(es, starts, d) && p in starts
    ensures k < |es| && Before(es[k], p, d)
  {
    var e :| e in es && Before(e, p, d);
    k :| k < |es| && es[k] == e;
  }

  lemma {:induction false} SpanAtMost(es: seq<OffsetPair>, gap: nat, j: nat)
    requires GapsAtMost(es, gap) && j < |es|
    ensures es[j].uncompressed - es[0].uncompressed <= j * gap
    decreases j
  {
    if j > 0 {
      SpanAtMost(es, gap, j - 1);
      assert j * gap == (j - 1) * gap + gap;
    }
  }

  /** An entry that is dropped has a kept one less than `k` entries before it. */
  lemma {:induction false} EveryNthReaches(es: seq<OffsetPair>, k: nat, gap: nat)
    requires Sorted(es) && GapsAtMost(es, gap) && k >= 1
    ensures Reaches(EveryNth(es, k), es, (k - 1) * gap + 1)
    decreases |es|
  {
    hide Sorted, GapsAtMost, Reaches;
    if es == [] {
      NothingReached((k - 1) * gap + 1);
    } else {
      var rest := if k <= |es| then es[k..] else [];
      if k <= |es| {
        SortedRest(es, k);
        GapsRest(es, gap, k);
      } else {
        NoEntries(gap);
      }
      EveryNthReaches(rest, k, gap);
      FirstGaps(es, k, gap);
      FirstReaches(es, EveryNth(rest, k), k, (k - 1) * gap + 1);
    }
  }

  lemma FirstGaps(es: seq<OffsetPair>, k: nat, gap: nat)
    requires es != [] && Sorted(es) && GapsAtMost(es, gap) && k >= 1
    ensures forall i :: 0 <= i < k && i < |es| ==> Before(es[0], es[i], (k - 1) * gap + 1)
  {
    hide Sorted, GapsAtMost;
    forall i | 0 <= i < k && i < |es| ensures Before(es[0], es[i], (k - 1) * gap + 1) {
      FirstBefore(es, i);
      SpanAtMost(es, gap, i);
      Fewer(i, k - 1, gap);
    }
  }

  lemma Fewer(i: nat, k: nat, gap: nat)
    requires i <= k
    ensures i * gap <= k * gap
  {
  }

  lemma NoEntries(gap: nat)
    ensures Sorted([]) && GapsAtMost([], gap)
  {
  }

  lemma GapsRest(es: seq<OffsetPair>, gap: nat, k: nat)
    requires GapsAtMost(es, gap) && k <= |es|
    ensures GapsAtMost(es[k..], gap)
  {
    var r := es[k..];
    forall i | 0 < i < |r| ensures r[i].uncompressed - r[i - 1].uncompressed <= gap {
      assert r[i] == es[i + k] && r[i - 1] == es[i - 1 + k];
    }
  }

  /** Entries are starts, and those strictly ascend. */
  lemma EntriesAscend(t: Table, starts: seq<OffsetPair>)
    requires Covers(t, starts) && Ascending(starts)
    ensures Ascending(t.entries)
  {
    hide Ascending, Sorted, GapsAtLeast, Reaches;
    var es := t.entries;
    forall i, j | 0 <= i < j < |es| ensures es[i].uncompressed < es[j].uncompressed && es[i].compressed < es[j].compressed {
      LaterIsAbove(es, t.est, i, j);
      SameOrder(starts, es[i], es[j]);
    }
    PairsAscend(es);
  }

  lemma LaterIsAbove(es: seq<OffsetPair>, est: nat, i: nat, j: nat)
    requires Sorted(es) && GapsAtLeast(es, est) && est >= 1 && i < j < |es|
    ensures es[i].uncompressed < es[j].uncompressed
  {
    assert es[i].uncompressed <= es[j - 1].uncompressed;
  }

  lemma SameOrder(starts: seq<OffsetPair>, e: OffsetPair, f: OffsetPair)
    requires Ascending(starts) && e in starts && f in starts && e.uncompressed < f.uncompressed
    ensures e.compressed < f.compressed
  {
    var a :| 0 <= a < |starts| && starts[a] == e;
    var b :| 0 <= b < |starts| && starts[b] == f;
    assert a < b;
  }

  lemma PairsAscend(es: seq<OffsetPair>)
    requires forall i, j :: 0 <= i < j < |es| ==> es[i].uncompressed < es[j].uncompressed && es[i].compressed < es[j].compressed
    ensures Ascending(es)
  {
  }

  /** How many entries the final reduction drops after each one it keeps. */
  function DroppedAfterEach(t: Table): nat {
    if |t.entries| < MAX_INDEX_ENTRIES then 0 else RemoveCount(|t.entries|, t.est, (|t.entries| + 1) / MAX_INDEX_ENTRIES)
  }

  /** The distance within which the reduced table has an entry before every start: two spacings, and
      one block for each entry dropped in a row. */
  function ReachAfter(t: Table, maxBlock: nat): nat { 2 * Reduce(t).est + DroppedAfterEach(t) * maxBlock }

  lemma {:induction false} EveryNthAscends(es: seq<OffsetPair>, k: nat)
    requires Ascending(es) && k >= 1
    ensures var r := EveryNth(es, k); Ascending(r) && (forall e <- r :: e in es) && (es != [] ==> r != [] && r[0] == es[0])
    decreases |es|
  {
    hide Ascending;
    if es == [] {
      assert Ascending([]) by { NothingAscends(); }
    } else {
      var rest := if k <= |es| then es[k..] else [];
      RestAscends(es, k);
      EveryNthAscends(rest, k);
      HeadAscends(es, rest, EveryNth(rest, k), k);
    }
  }

  lemma NothingAscends()
    ensures Ascending([])
  {
  }

  lemma RestAscends(es: seq<OffsetPair>, k: nat)
    requires Ascending(es)
    ensures Ascending(if k <= |es| then es[k..] else [])
  {
  }

  lemma HeadAscends(es: seq<OffsetPair>, rest: seq<OffsetPair>, later: seq<OffsetPair>, k: nat)
    requires es != [] && Ascending(es) && k >= 1 && rest == (if k <= |es| then es[k..] else [])
    requires Ascending(later) && forall e <- later :: e in rest
    ensures Ascending([es[0]] + later) && forall e <- [es[0]] + later :: e in es
  {
    forall e | e in later ensures e in es && es[0].uncompressed < e.uncompressed && es[0].compressed < e.compressed {
      var i :| 0 <= i < |rest| && rest[i] == e;
      assert es[i + k] == e;
    }
  }

  /** What the final reduction leaves. */
  lemma ReduceCovers(t: Table, starts: seq<OffsetPair>, maxBlock: nat, total: nat)
    requires Covers(t, starts) && BlockStarts(starts, maxBlock, total) && Ascending(starts) && starts != []
    ensures var r := Reduce(t);
            && r.est == t.est * (DroppedAfterEach(t) + 1)
            && r.entries != [] && r.entries[0] == starts[0] && Ascending(r.entries) && (forall e <- r.entries :: e in starts)
            && Reaches(r.entries, starts, ReachAfter(t, maxBlock))
  {
    hide Sorted, Reaches, GapsAtMost, GapsAtLeast, BlockStarts, Ascending, EveryNth, RemoveCount;
    EntriesAscend(t, starts);
    if |t.entries| >= MAX_INDEX_ENTRIES {
      var n := DroppedAfterEach(t);
      var gap := 2 * t.est + maxBlock;
      GapBound(t, starts, maxBlock, total);
      EveryNthReaches(t.entries, n + 1, gap);
      EveryNthAscends(t.entries, n + 1);
      ReachStep(t.entries, EveryNth(t.entries, n + 1), starts, 2 * t.est, n * gap);
      SumOfGaps(n, t.est, maxBlock);
    }
  }

  lemma SumOfGaps(n: nat, est: nat, maxBlock: nat)
    ensures 2 * est + n * (2 * est + maxBlock) == 2 * (est + est * n) + n * maxBlock
    ensures est + est * n == est * (n + 1)
  {
  }
}
