/** The seek index as the writer and the seeker use it: fields updated in place by loops, each
    operation proved to be the table or wire function it is meant to compute. */
module Index {
  import opened Bytes
  import opened IndexTable
  import opened IndexWire

  /** The first position whose entry lies after `offset`, by bisection. */
  method PartitionPoint(es: seq<OffsetPair>, offset: nat) returns (n: nat)
    requires Sorted(es)
    ensures n == CountUpTo(es, offset)
  {
    var hi;
    n, hi := 0, |es|;
    while n < hi
      invariant n <= hi <= |es|
      invariant forall i :: 0 <= i < n ==> es[i].uncompressed <= offset
      invariant forall i :: hi <= i < |es| ==> es[i].uncompressed > offset
    {
      var mid := (n + hi) / 2;
      if es[mid].uncompressed <= offset { n := mid + 1; } else { hi := mid; }
    }
    CountUnique(es, offset, n);
  }

  /** On a table split at `n`, the count is `n`. */
  lemma CountUnique(es: seq<OffsetPair>, offset: nat, n: nat)
    requires n <= |es|
    requires forall i :: 0 <= i < n ==> es[i].uncompressed <= offset
    requires n < |es| ==> es[n].uncompressed > offset
    ensures CountUpTo(es, offset) == n
  {
    var m := CountUpTo(es, offset);
  }

  method PutVarint(buf: seq<byte>, v: int) returns (r: seq<byte>)
    requires I64(v)
    ensures r == buf + Varint(v)
  {
    r := PutUvarint(buf, Zigzag(v));
  }

  /** Rust's `read_varint` at `at`. */
  method GetVarint(b: seq<byte>, at: nat) returns (r: Result<(int, nat), Error>)
    requires at <= |b|
    ensures r == ReadVarint(b, at)
  {
    var u := GetUvarint(b, at);
    r := if u.None? then Err(VarintError(b, at)) else Ok((Unzigzag(u.value.0), u.value.1));
  }

  /** Every wire value of a small sorted table fits the signed varints. */
  lemma WiresFit(t: Table, i: nat)
    requires SmallTable(t) && Sorted(t.entries) && i < |t.entries|
    ensures I64(UncompressedWire(t.entries, t.est, i)) && I64(CompressedWire(t.entries, t.est, i))
    ensures i > 0 ==> Predictor(t.entries, t.est, i + 1) ==
                      Predictor(t.entries, t.est, i) + Half(CompressedWire(t.entries, t.est, i))
  {
    var es := t.entries;
    assert es[i] in es && (i > 0 ==> es[i - 1] in es);
    PredictorInRange(t, i);
  }

  lemma {:induction false} ThinSorted(es: seq<OffsetPair>, est: nat)
    requires Sorted(es)
    ensures Sorted(Thin(es, est)) && (forall e <- Thin(es, est) :: e in es)
    decreases |es|
  {
    if es != [] {
      var rest := es[1 + Near(es[1..], es[0].uncompressed, est)..];
      ThinSorted(rest, est);
      HeadSorted(es[0], Thin(rest, est));
    }
  }

  lemma {:induction false} EveryNthSorted(es: seq<OffsetPair>, k: nat)
    requires Sorted(es) && k >= 1
    ensures Sorted(EveryNth(es, k)) && (forall e <- EveryNth(es, k) :: e in es)
    decreases |es|
  {
    if es != [] {
      var rest := if k <= |es| then es[k..] else [];
      EveryNthSorted(rest, k);
      HeadSorted(es[0], EveryNth(rest, k));
    }
  }

  lemma HeadSorted(e: OffsetPair, tail: seq<OffsetPair>)
    requires Sorted(tail)
    requires forall x <- tail :: e.uncompressed <= x.uncompressed && e.compressed <= x.compressed
    ensures Sorted([e] + tail)
  {
  }

  /** What an interrupted read still has to deliver, after what it already did. */
  function Prefixed(done: seq<nat>, r: Result<(seq<nat>, nat), Error>): Result<(seq<nat>, nat), Error> {
    if r.Err? then r else Ok((done + r.value.0, r.value.1))
  }

  lemma PrefixedStep(done: seq<nat>, x: nat, r: Result<(seq<nat>, nat), Error>)
    ensures Prefixed(done, Prefixed([x], r)) == Prefixed(done + [x], r)
  {
    if r.Ok? {
      assert done + ([x] + r.value.0) == done + [x] + r.value.0;
    }
  }

  lemma PrefixedEmpty(r: Result<(seq<nat>, nat), Error>)
    ensures Prefixed([], r) == r
  {
    if r.Ok? {
      assert [] + r.value.0 == r.value.0;
    }
  }

  lemma {:induction false} ZipAt(cs: seq<nat>, us: seq<nat>, i: nat)
    requires |cs| == |us| && i < |cs|
    ensures |Zip(cs, us)| == |cs| && Zip(cs, us)[i] == OffsetPair(cs[i], us[i])
    decreases |cs|
  {
    if |cs| > 1 {
      ZipAt(cs[1..], us[1..], if i > 0 then i - 1 else 0);
    }
  }

  lemma ZipIs(es: seq<OffsetPair>, cs: seq<nat>, us: seq<nat>)
    requires |es| == |cs| == |us|
    requires forall i :: 0 <= i < |es| ==> es[i] == OffsetPair(cs[i], us[i])
    ensures es == Zip(cs, us)
  {
    forall i | 0 <= i < |es| ensures |Zip(cs, us)| == |es| && es[i] == Zip(cs, us)[i] {
      ZipAt(cs, us, i);
    }
  }

  class Index {
    var totalUncompressed: Option<nat>
    var totalCompressed: Option<nat>
    var offsets: seq<OffsetPair>
    var est: nat

    ghost function Contents(): Table
      reads this
    {
      Table(offsets, est)
    }

    constructor ()
      ensures Contents() == Table([], 0) && totalUncompressed == None && totalCompressed == None
    {
      totalUncompressed, totalCompressed, offsets, est := None, None, [], 0;
    }

    method Reset(maxBlock: nat)
      modifies this
      ensures Contents() == IndexTable.Reset(maxBlock)
      ensures totalUncompressed == None && totalCompressed == None
    {
      var mb := Max(maxBlock, 1);
      while mb < MIN_INDEX_DIST
        invariant mb >= 1 && InitialSpacing(mb) == InitialSpacing(Max(maxBlock, 1))
        decreases SaturatingSub(MIN_INDEX_DIST, mb)
      {
        mb := mb * 2;
      }
      est := mb;
      totalUncompressed, totalCompressed, offsets := None, None, [];
    }

    /** Entries must arrive in increasing order unless a positive spacing filters the others out. */
    method Add(compressed: nat, uncompressed: nat) returns (r: Result<(), Error>)
      requires Sorted(offsets)
      requires est >= 1 || offsets == [] || Last(offsets).uncompressed <= uncompressed
      modifies `offsets, `est
      ensures var a := IndexTable.Add(old(Contents()), OffsetPair(compressed, uncompressed));
              if a.Err? then r == Err(a.error) && Contents() == old(Contents())
              else r == Ok(()) && Contents() == a.value
      ensures Sorted(offsets)
    {
      if compressed > I64_MAX || uncompressed > I64_MAX {
        return Err(Invalid);
      }
      if |offsets| > 0 {
        var latest := offsets[|offsets| - 1];
        var gap := SaturatingSub(uncompressed, latest.uncompressed);
        if gap < est {
          return Ok(());
        }
        if latest.compressed > compressed {
          return Err(Invalid);
        }
      }
      offsets := offsets + [OffsetPair(compressed, uncompressed)];
      if |offsets| > MAX_INDEX_ENTRIES {
        ReduceLight();
      }
      return Ok(());
    }

    method Find(offset: nat) returns (r: OffsetPair)
      requires Sorted(offsets)
      ensures r == IndexTable.Find(offsets, offset)
    {
      if |offsets| == 0 {
        return ORIGIN;
      }
      if |offsets| > 200 {
        var n := PartitionPoint(offsets, offset);
        return if n == 0 then ORIGIN else offsets[n - 1];
      }
      r := ORIGIN;
      var i := 0;
      while i < |offsets|
        invariant i <= |offsets|
        invariant forall k :: 0 <= k < i ==> offsets[k].uncompressed <= offset
        invariant r == if i == 0 then ORIGIN else offsets[i - 1]
      {
        if offsets[i].uncompressed > offset {
          break;
        }
        r := offsets[i];
        i := i + 1;
      }
      CountUnique(offsets, offset, i);
    }

    /** Compacts in place, keeping entries at least the doubled spacing apart. */
    method ReduceLight()
      requires Sorted(offsets)
      modifies `offsets, `est
      ensures Contents() == IndexTable.ReduceLight(old(Contents()))
      ensures Sorted(offsets)
    {
      hide Sorted, Near, Thin;
      est := est * 2;
      ghost var all, e := offsets, est;
      ThinSorted(all, e);
      var j, idx := 0, 0;
      assert offsets[..0] + Thin(all[0..], e) == Thin(all, e) by {
        assert all[0..] == all;
      }
      while idx < |offsets|
        invariant j <= idx <= |offsets| == |all| && est == e
        invariant forall k :: idx <= k < |all| ==> offsets[k] == all[k]
        invariant offsets[..j] + Thin(all[idx..], e) == Thin(all, e)
      {
        var base := offsets[idx];
        ghost var from, kept := idx, offsets[..j];
        SortedGap(all, idx);
        offsets := offsets[j := base];
        j, idx := j + 1, idx + 1;
        assert offsets[..j] == kept + [base];
        while idx < |offsets| && offsets[idx].uncompressed - base.uncompressed < est
          invariant from < idx <= |offsets|
          invariant forall k :: from < k < idx ==> all[k].uncompressed - base.uncompressed < e
        {
          idx := idx + 1;
        }
        ThinFrom(all, from, idx, e);
        assert kept + ([base] + Thin(all[idx..], e)) == offsets[..j] + Thin(all[idx..], e);
      }
      ThinNothing(e);
      assert all[idx..] == [];
      offsets := offsets[..j];
    }

    /** Keeps every `k`th entry, in place. */
    method KeepEvery(k: nat)
      requires k >= 1
      modifies `offsets
      ensures offsets == EveryNth(old(offsets), k)
    {
      hide EveryNth, Tail;
      ghost var all := offsets;
      var j, idx := 0, 0;
      EveryNthStart(all, k);
      while idx < |offsets|
        invariant j <= idx && j <= |offsets| == |all|
        invariant forall m :: idx <= m < |all| ==> offsets[m] == all[m]
        invariant offsets[..j] + EveryNth(Tail(all, idx), k) == EveryNth(all, k)
      {
        ghost var kept := offsets[..j];
        var base := offsets[idx];
        EveryNthFrom(all, idx, k);
        offsets := offsets[j := base];
        j, idx := j + 1, idx + k;
        assert offsets[..j] == kept + [base];
        assert kept + ([base] + EveryNth(Tail(all, idx), k)) == offsets[..j] + EveryNth(Tail(all, idx), k);
      }
      EveryNthEnd(all, idx, k);
      offsets := offsets[..j];
    }

    /** Drops `removeN` entries after each one it keeps, once the table is full. */
    method Reduce()
      requires Sorted(offsets)
      modifies `offsets, `est
      ensures Contents() == IndexTable.Reduce(old(Contents()))
      ensures Sorted(offsets)
    {
      hide Sorted, RemoveCount, EveryNth;
      if |offsets| < MAX_INDEX_ENTRIES {
        return;
      }
      var removeN := RemoveAmount(|offsets|, est, (|offsets| + 1) / MAX_INDEX_ENTRIES);
      EveryNthSorted(offsets, removeN + 1);
      KeepEvery(removeN + 1);
      est := est + est * removeN;
    }

    /** Whether any uncompressed offset is not exactly one spacing after the one before it. */
    method DetectUncompressed() returns (has: bool)
      ensures has == HasUncompressed(offsets, est)
    {
      has := false;
      var idx := 0;
      while idx < |offsets|
        invariant idx <= |offsets|
        invariant idx > 0 ==> offsets[0].uncompressed == 0
        invariant forall i :: 0 < i < idx ==> offsets[i].uncompressed == offsets[i - 1].uncompressed + est
      {
        if idx == 0 {
          if offsets[idx].uncompressed != 0 {
            return true;
          }
        } else if offsets[idx].uncompressed != offsets[idx - 1].uncompressed + est {
          return true;
        }
        idx := idx + 1;
      }
    }

    method PutUncompressed(buf: seq<byte>) returns (out: seq<byte>)
      requires Sorted(offsets) && SmallTable(Contents())
      ensures out == buf + UncompressedBytes(offsets, est, |offsets|)
    {
      hide Varint, UncompressedWire, CompressedWire, Predictor, Sorted, SmallTable;
      out := buf;
      var idx := 0;
      assert UncompressedBytes(offsets, est, 0) == [];
      while idx < |offsets|
        invariant idx <= |offsets| && out == buf + UncompressedBytes(offsets, est, idx)
      {
        WiresFit(Contents(), idx);
        UncompressedWireIs(offsets, est, idx);
        var u: int := offsets[idx].uncompressed;
        if idx > 0 {
          u := u - (offsets[idx - 1].uncompressed + est);
        }
        out := PutVarint(out, u);
        idx := idx + 1;
        assert UncompressedBytes(offsets, est, idx) ==
               UncompressedBytes(offsets, est, idx - 1) + Varint(UncompressedWire(offsets, est, idx - 1));
      }
    }

    method PutCompressed(buf: seq<byte>) returns (out: seq<byte>)
      requires Sorted(offsets) && SmallTable(Contents())
      ensures out == buf + CompressedBytes(offsets, est, |offsets|)
    {
      hide Varint, UncompressedWire, CompressedWire, Predictor, Sorted, SmallTable, Half;
      out := buf;
      var predict: int := est / 2;
      var idx := 0;
      assert CompressedBytes(offsets, est, 0) == [];
      FirstPredictor(offsets, est);
      while idx < |offsets|
        invariant idx <= |offsets| && out == buf + CompressedBytes(offsets, est, idx)
        invariant predict == Predictor(offsets, est, idx)
      {
        WiresFit(Contents(), idx);
        CompressedWireIs(offsets, est, idx);
        FirstPredictor(offsets, est);
        var c: int := offsets[idx].compressed;
        if idx > 0 {
          c := c - (offsets[idx - 1].compressed + predict);
          predict := predict + Half(c);
        }
        out := PutVarint(out, c);
        idx := idx + 1;
        assert CompressedBytes(offsets, est, idx) ==
               CompressedBytes(offsets, est, idx - 1) + Varint(CompressedWire(offsets, est, idx - 1));
      }
    }

    method PutPayload(buf: seq<byte>, totalU: Option<nat>, totalC: Option<nat>) returns (out: seq<byte>)
      requires Sorted(offsets) && SmallTable(Contents()) && FitsI64(totalU) && FitsI64(totalC)
      ensures out == buf + Payload(Contents(), totalU, totalC)
    {
      hide Varint, HasUncompressed, UncompressedBytes, CompressedBytes, Sorted, SmallTable;
      SmallCounts(Contents());
      out := PutVarint(buf, OptToWire(totalU));
      out := PutVarint(out, OptToWire(totalC));
      out := PutVarint(out, est);
      out := PutVarint(out, |offsets|);
      assert out == buf + Counts(Contents(), totalU, totalC);
      var has := DetectUncompressed();
      out := out + [if has then 1 else 0];
      if has {
        out := PutUncompressed(out);
      }
      out := PutCompressed(out);
      assert out == buf + (Counts(Contents(), totalU, totalC) + Offsets(Contents()));
    }

    /** Appends the reduced index as one chunk; totals past the signed range are refused and change
        nothing. */
    method AppendTo(buf: seq<byte>, totalU: Option<nat>, totalC: Option<nat>) returns (r: Result<(), Error>, out: seq<byte>)
      requires Sorted(offsets) && SmallTable(IndexTable.Reduce(Contents()))
      modifies this
      ensures r == if FitsI64(totalU) && FitsI64(totalC) then Ok(()) else Err(Invalid)
      ensures r.Err? ==> out == buf && Contents() == old(Contents())
                         && totalUncompressed == old(totalUncompressed) && totalCompressed == old(totalCompressed)
      ensures r.Ok? ==>
                && Contents() == IndexTable.Reduce(old(Contents())) && Sorted(offsets)
                && totalUncompressed == totalU && totalCompressed == totalC
                && out == buf + Serialize(Contents(), totalU, totalC)
    {
      hide Payload, Sorted, SmallTable, IndexTable.Reduce, Low8;
      if (totalU.Some? && totalU.value > I64_MAX) || (totalC.Some? && totalC.value > I64_MAX) {
        return Err(Invalid), buf;
      }
      Reduce();
      totalUncompressed, totalCompressed := totalU, totalC;
      var init := |buf|;
      out := buf + [CHUNK_TYPE_INDEX, 0, 0, 0] + INDEX_HEADER;
      out := PutPayload(out, totalU, totalC);
      ghost var payload := Payload(Contents(), totalU, totalC);
      var size: nat := |out| - init + 4 + |INDEX_TRAILER|;
      out := out + Le32Bytes(size) + INDEX_TRAILER;
      var chunkLen: nat := |out| - init - 4;
      assert |out| == init + |payload| + 20;
      out := out[init + 1 := Low8(chunkLen)][init + 2 := Low8(chunkLen / 0x100)][init + 3 := Low8(chunkLen / 0x1_0000)];
      Patched(buf, payload, out);
      return Ok(()), out;
    }

    /** Reads the uncompressed offsets of all entries. */
    method GetUncompressed(b: seq<byte>, start: nat, has: bool) returns (r: Result<nat, Error>)
      requires start <= |b|
      modifies `offsets
      ensures |offsets| == old(|offsets|)
      ensures var a := ReadUncompressed(b, start, 0, |offsets|, has, est, 0);
              if a.Err? then r == Err(a.error) else r == Ok(a.value.1) && AreUncompressed(offsets, a.value.0)
    {
      hide ReadVarint, Prefixed;
      var n := |offsets|;
      var at: nat, idx := start, 0;
      ghost var us: seq<nat> := [];
      PrefixedEmpty(ReadUncompressed(b, start, 0, n, has, est, 0));
      while idx < n
        invariant idx <= n == |offsets| && at <= |b| && |us| == idx
        invariant forall i :: 0 <= i < idx ==> offsets[i].uncompressed == us[i]
        invariant ReadUncompressed(b, start, 0, n, has, est, 0) ==
                  Prefixed(us, ReadUncompressed(b, at, idx, n, has, est, if idx > 0 then us[idx - 1] else 0))
      {
        UncompressedRound(us, b, at, idx, n, has, est, if idx > 0 then us[idx - 1] else 0);
        var off: int, next := 0, at;
        if has {
          var v := GetVarint(b, at);
          if v.Err? {
            return Err(v.error);
          }
          off, next := v.value.0, v.value.1;
        }
        if idx > 0 {
          var prev: int := offsets[idx - 1].uncompressed;
          if !I64(prev + est) || !I64(prev + est + off) {
            return Err(Invalid);
          }
          off := prev + est + off;
          if off <= prev {
            return Err(Invalid);
          }
        }
        if off < 0 {
          return Err(Invalid);
        }
        offsets := offsets[idx := offsets[idx].(uncompressed := off)];
        us := us + [off as nat];
        at, idx := next, idx + 1;
      }
      NothingToRead(us, b, at, n, has, est, if idx > 0 then us[idx - 1] else 0);
      return Ok(at);
    }

    /** Reads the compressed offsets of all entries, predicting each from the distances before it. */
    method GetCompressed(b: seq<byte>, start: nat) returns (r: Result<nat, Error>)
      requires start <= |b|
      modifies `offsets
      ensures |offsets| == old(|offsets|)
      ensures forall i :: 0 <= i < |offsets| ==> offsets[i].uncompressed == old(offsets)[i].uncompressed
      ensures var a := ReadCompressed(b, start, 0, |offsets|, est / 2, 0);
              if a.Err? then r == Err(a.error) else r == Ok(a.value.1) && AreCompressed(offsets, a.value.0)
    {
      hide ReadVarint, Prefixed, Half, I64;
      var n := |offsets|;
      var at: nat, idx, predict: int := start, 0, est / 2;
      ghost var cs: seq<nat> := [];
      PrefixedEmpty(ReadCompressed(b, start, 0, n, est / 2, 0));
      while idx < n
        invariant idx <= n == |offsets| && at <= |b| && |cs| == idx
        invariant forall i :: 0 <= i < idx ==> offsets[i].compressed == cs[i]
        invariant forall i :: 0 <= i < n ==> offsets[i].uncompressed == old(offsets)[i].uncompressed
        invariant ReadCompressed(b, start, 0, n, est / 2, 0) ==
                  Prefixed(cs, ReadCompressed(b, at, idx, n, predict, if idx > 0 then cs[idx - 1] else 0))
      {
        CompressedRound(cs, b, at, idx, n, predict, if idx > 0 then cs[idx - 1] else 0);
        var v := GetVarint(b, at);
        if v.Err? {
          return Err(v.error);
        }
        var off, next := v.value.0, v.value.1;
        if idx > 0 {
          var predictNext := predict + Half(off);
          if !I64(predictNext) {
            return Err(Invalid);
          }
          var prev: int := offsets[idx - 1].compressed;
          if !I64(prev + predict) || !I64(prev + predict + off) {
            return Err(Invalid);
          }
          off := prev + predict + off;
          if off <= prev {
            return Err(Invalid);
          }
          predict := predictNext;
        }
        if off < 0 {
          return Err(Invalid);
        }
        offsets := offsets[idx := offsets[idx].(compressed := off)];
        cs := cs + [off as nat];
        at, idx := next, idx + 1;
      }
      NothingToRead(cs, b, at, n, false, predict, if idx > 0 then cs[idx - 1] else 0);
      return Ok(at);
    }

    /** Reads the totals, the spacing and the number of entries, which are then made room for. */
    method GetCounts(bytes: seq<byte>, start: nat) returns (r: Result<nat, Error>)
      requires start <= |bytes|
      modifies this
      ensures var c := ReadCounts(bytes, start);
              if c.Err? then r == Err(c.error)
              else
                var (totalU, totalC, e, n, at) := c.value;
                && r == Ok(at) && totalUncompressed == Some(totalU) && totalCompressed == totalC && est == e && |offsets| == n
    {
      hide ReadVarint;
      var v := GetVarint(bytes, start);
      if v.Err? {
        return Err(v.error);
      }
      if v.value.0 < 0 {
        return Err(Invalid);
      }
      totalUncompressed := Some(v.value.0);
      v := GetVarint(bytes, v.value.1);
      if v.Err? {
        return Err(v.error);
      }
      totalCompressed := WireToOpt(v.value.0);
      v := GetVarint(bytes, v.value.1);
      if v.Err? {
        return Err(v.error);
      }
      if v.value.0 < 0 {
        return Err(Invalid);
      }
      est := v.value.0;
      v := GetVarint(bytes, v.value.1);
      if v.Err? {
        return Err(v.error);
      }
      if v.value.0 < 0 || v.value.0 > MAX_INDEX_ENTRIES {
        return Err(Invalid);
      }
      offsets := seq(v.value.0, _ => ORIGIN);
      return Ok(v.value.1);
    }

    /** Reads both lists of offsets and the trailer. */
    method GetOffsets(bytes: seq<byte>, start: nat) returns (r: Result<nat, Error>)
      requires start <= |bytes|
      modifies `offsets
      ensures var o := ReadOffsets(bytes, start, old(|offsets|), est);
              if o.Err? then r == Err(o.error) else r == Ok(o.value.1) && offsets == o.value.0 && Sorted(offsets)
    {
      hide ReadUncompressed, ReadCompressed, Sorted;
      if start == |bytes| {
        return Err(Truncated);
      }
      if bytes[start] > 1 {
        return Err(BadFormat);
      }
      var u := GetUncompressed(bytes, start + 1, bytes[start] == 1);
      if u.Err? {
        return Err(u.error);
      }
      var c := GetCompressed(bytes, u.value);
      if c.Err? {
        return Err(c.error);
      }
      Assemble(offsets, bytes, start + 1, bytes[start] == 1, est);
      var at := c.value;
      if |bytes| - at < 4 + |INDEX_TRAILER| {
        return Err(Truncated);
      }
      if bytes[at + 4..at + 4 + |INDEX_TRAILER|] != INDEX_TRAILER {
        return Err(BadFormat);
      }
      return Ok(at + 4 + |INDEX_TRAILER|);
    }

    /** Loads an index chunk and returns the unconsumed tail; what a failed load leaves behind is
        unspecified. */
    method Load(bytes: seq<byte>) returns (r: Result<seq<byte>, Error>)
      modifies this
      ensures var p := Parse(bytes);
              if p.Err? then r == Err(p.error)
              else
                var (l, at) := p.value;
                && r == Ok(bytes[at..]) && Contents() == l.table && Sorted(offsets)
                && totalUncompressed == Some(l.totalU) && totalCompressed == l.totalC
    {
      hide ReadCounts, ReadOffsets, Sorted;
      if |bytes| <= 4 + |INDEX_HEADER| + |INDEX_TRAILER| {
        return Err(Truncated);
      }
      if bytes[0] != CHUNK_TYPE_INDEX && bytes[0] != LEGACY_INDEX_CHUNK {
        return Err(BadFormat);
      }
      var chunkLen := Le24(bytes, 1);
      if |bytes| - 4 < chunkLen {
        return Err(Truncated);
      }
      if bytes[4..10] != INDEX_HEADER {
        return Err(BadFormat);
      }
      var counted := GetCounts(bytes, 10);
      if counted.Err? {
        return Err(counted.error);
      }
      var end := GetOffsets(bytes, counted.value);
      return if end.Err? then Err(end.error) else Ok(bytes[end.value..]);
    }

    /** Loads the index at the end of `data`. */
    method LoadStream(data: seq<byte>) returns (r: Result<(), Error>)
      modifies this
      ensures var start := TailStart(data);
              if start.Err? then r == Err(start.error)
              else
                var p := Parse(data[start.value..]);
                if p.Err? then r == Err(p.error)
                else
                  var l := p.value.0;
                  && r == Ok(()) && Contents() == l.table && Sorted(offsets)
                  && totalUncompressed == Some(l.totalU) && totalCompressed == l.totalC
    {
      hide Parse, Le32, Sorted;
      if |data| < 10 {
        return Err(Io);
      }
      var tail := data[|data| - 10..];
      if tail[4..] != INDEX_TRAILER {
        return Err(BadFormat);
      }
      SameWord(data, |data| - 10, tail[..4]);
      var size := Le32(tail[..4], 0);
      if size > MAX_INDEX_CHUNK {
        return Err(Invalid);
      }
      if size > |data| {
        return Err(Io);
      }
      var rest := Load(data[|data| - size..]);
      return if rest.Err? then Err(rest.error) else Ok(());
    }
  }

  predicate AreUncompressed(es: seq<OffsetPair>, us: seq<nat>) {
    |es| == |us| && forall i :: 0 <= i < |es| ==> es[i].uncompressed == us[i]
  }

  predicate AreCompressed(es: seq<OffsetPair>, cs: seq<nat>) {
    |es| == |cs| && forall i :: 0 <= i < |es| ==> es[i].compressed == cs[i]
  }

  ghost function Tail(es: seq<OffsetPair>, i: nat): seq<OffsetPair> { if i <= |es| then es[i..] else [] }

  lemma EveryNthStart(es: seq<OffsetPair>, k: nat)
    requires k >= 1
    ensures [] + EveryNth(Tail(es, 0), k) == EveryNth(es, k)
  {
    assert es[0..] == es;
  }

  lemma EveryNthEnd(es: seq<OffsetPair>, i: nat, k: nat)
    requires k >= 1 && i >= |es|
    ensures EveryNth(Tail(es, i), k) == []
  {
  }

  lemma EveryNthFrom(es: seq<OffsetPair>, i: nat, k: nat)
    requires i < |es| && k >= 1
    ensures EveryNth(Tail(es, i), k) == [es[i]] + EveryNth(Tail(es, i + k), k)
  {
    var rest := es[i..];
    assert (if k <= |rest| then rest[k..] else []) == Tail(es, i + k);
  }

  /** The loop that widens the spacing while entries stay too dense for the data they cover. */
  method RemoveAmount(len: nat, est: nat, first: nat) returns (n: nat)
    ensures n == RemoveCount(len, est, first)
  {
    n := first;
    while est * (n + 1) < MIN_INDEX_DIST && len / (n + 1) > 1000
      invariant n >= first
      invariant RemoveCount(len, est, n) == RemoveCount(len, est, first)
      decreases SaturatingSub(len, n)
    {
      RemoveCountStep(len, est, n);
      n := n + 1;
    }
  }

  lemma RemoveCountStep(len: nat, est: nat, n: nat)
    ensures RemoveCount(len, est, n) ==
            if est * (n + 1) < MIN_INDEX_DIST && len / (n + 1) > 1000 then RemoveCount(len, est, n + 1) else n
    ensures len / (n + 1) > 1000 ==> n < len
  {
  }

  lemma SortedGap(es: seq<OffsetPair>, i: nat)
    requires Sorted(es) && i < |es|
    ensures forall k :: i <= k < |es| ==> es[i].uncompressed <= es[k].uncompressed
  {
  }


  lemma {:induction false} NearIs(es: seq<OffsetPair>, base: nat, est: nat, n: nat)
    requires n <= |es| && forall k :: 0 <= k < |es| ==> base <= es[k].uncompressed
    requires forall k :: 0 <= k < n ==> es[k].uncompressed - base < est
    requires n < |es| ==> es[n].uncompressed - base >= est
    ensures Near(es, base, est) == n
    decreases n
  {
    if n > 0 {
      NearIs(es[1..], base, est, n - 1);
    }
  }

  /** One round of thinning: `i` is kept and everything up to `k` is too close to it. */
  lemma ThinFrom(es: seq<OffsetPair>, i: nat, k: nat, est: nat)
    requires i < k <= |es| && forall m :: i <= m < |es| ==> es[i].uncompressed <= es[m].uncompressed
    requires forall m :: i < m < k ==> es[m].uncompressed - es[i].uncompressed < est
    requires k < |es| ==> es[k].uncompressed - es[i].uncompressed >= est
    ensures Thin(es[i..], est) == [es[i]] + Thin(es[k..], est)
  {
    hide Near;
    var rest := es[i..];
    NearIs(rest[1..], es[i].uncompressed, est, k - i - 1);
    assert rest[k - i..] == es[k..];
  }

  lemma ThinNothing(est: nat)
    ensures Thin([], est) == []
  {
  }

  lemma UncompressedWireIs(es: seq<OffsetPair>, est: nat, i: nat)
    requires i < |es|
    ensures UncompressedWire(es, est, i) ==
            if i > 0 then es[i].uncompressed - (es[i - 1].uncompressed + est) else es[i].uncompressed
  {
  }

  lemma CompressedWireIs(es: seq<OffsetPair>, est: nat, i: nat)
    requires i < |es|
    ensures CompressedWire(es, est, i) ==
            if i > 0 then es[i].compressed - (es[i - 1].compressed + Predictor(es, est, i)) else es[i].compressed
  {
  }

  lemma FirstPredictor(es: seq<OffsetPair>, est: nat)
    ensures Predictor(es, est, 0) == est / 2 && (es != [] ==> Predictor(es, est, 1) == est / 2)
  {
  }

  /** Filling in the chunk length last gives the envelope. */
  lemma Patched(buf: seq<byte>, payload: seq<byte>, out: seq<byte>)
    requires var size := |payload| + 20;
             var raw := buf + [CHUNK_TYPE_INDEX, 0, 0, 0] + INDEX_HEADER + payload + Le32Bytes(size) + INDEX_TRAILER;
             var i := |buf|;
             out == raw[i + 1 := Low8(size - 4)][i + 2 := Low8((size - 4) / 0x100)][i + 3 := Low8((size - 4) / 0x1_0000)]
    ensures out == buf + Envelope(payload)
  {
    hide Low8;
  }

  /** One round of the uncompressed loop, in terms of what is still to be read. */
  lemma UncompressedRound(us: seq<nat>, b: seq<byte>, at: nat, idx: nat, n: nat, has: bool, est: nat, prev: nat)
    requires at <= |b| && idx < n
    ensures var v := ReadWire(b, at, has);
            var r := Prefixed(us, ReadUncompressed(b, at, idx, n, has, est, prev));
            if v.Err? then r == Err(v.error)
            else
              var (wire, next) := v.value;
              var off := if idx > 0 then prev + est + wire else wire;
              if idx > 0 && (!I64(prev + est) || !I64(off) || off <= prev) then r == Err(Invalid)
              else if off < 0 then r == Err(Invalid)
              else r == Prefixed(us + [off as nat], ReadUncompressed(b, next, idx + 1, n, has, est, off))
  {
    hide ReadWire, I64;
    var v := ReadWire(b, at, has);
    if v.Ok? {
      var (wire, next) := v.value;
      var off := if idx > 0 then prev + est + wire else wire;
      if off >= 0 {
        PrefixedStep(us, off, ReadUncompressed(b, next, idx + 1, n, has, est, off));
      }
    }
  }

  lemma CompressedRound(cs: seq<nat>, b: seq<byte>, at: nat, idx: nat, n: nat, predict: int, prev: nat)
    requires at <= |b| && idx < n
    ensures var v := ReadVarint(b, at);
            var r := Prefixed(cs, ReadCompressed(b, at, idx, n, predict, prev));
            if v.Err? then r == Err(v.error)
            else
              var (wire, next) := v.value;
              var predictNext := if idx > 0 then predict + Half(wire) else predict;
              var off := if idx > 0 then prev + predict + wire else wire;
              if idx > 0 && (!I64(predictNext) || !I64(prev + predict) || !I64(off) || off <= prev) then r == Err(Invalid)
              else if off < 0 then r == Err(Invalid)
              else r == Prefixed(cs + [off as nat], ReadCompressed(b, next, idx + 1, n, predictNext, off))
  {
    hide ReadVarint, I64, Half;
    var v := ReadVarint(b, at);
    if v.Ok? {
      var (wire, next) := v.value;
      var off := if idx > 0 then prev + predict + wire else wire;
      if off >= 0 {
        PrefixedStep(cs, off, ReadCompressed(b, next, idx + 1, n, if idx > 0 then predict + Half(wire) else predict, off));
      }
    }
  }

  predicate Ascending(xs: seq<nat>) { forall i, j :: 0 <= i < j < |xs| ==> xs[i] < xs[j] }

  lemma AscendingCons(x: nat, xs: seq<nat>)
    requires Ascending(xs) && forall y <- xs :: x < y
    ensures Ascending([x] + xs)
  {
    var all := [x] + xs;
    forall i, j | 0 <= i < j < |all| ensures all[i] < all[j] {
      assert all[j] == xs[j - 1] && all[j] in xs;
    }
  }

  lemma {:induction false} UncompressedAscend(b: seq<byte>, at: nat, idx: nat, n: nat, has: bool, est: nat, prev: nat)
    requires at <= |b| && idx <= n && ReadUncompressed(b, at, idx, n, has, est, prev).Ok?
    ensures var us := ReadUncompressed(b, at, idx, n, has, est, prev).value.0;
            Ascending(us) && (idx > 0 ==> forall u <- us :: prev < u)
    decreases n - idx
  {
    hide ReadWire, I64;
    if idx < n {
      var (wire, next) := ReadWire(b, at, has).value;
      var off := if idx > 0 then prev + est + wire else wire;
      UncompressedAscend(b, next, idx + 1, n, has, est, off);
      AscendingCons(off, ReadUncompressed(b, next, idx + 1, n, has, est, off).value.0);
    }
  }

  lemma {:induction false} CompressedAscend(b: seq<byte>, at: nat, idx: nat, n: nat, predict: int, prev: nat)
    requires at <= |b| && idx <= n && ReadCompressed(b, at, idx, n, predict, prev).Ok?
    ensures var cs := ReadCompressed(b, at, idx, n, predict, prev).value.0;
            Ascending(cs) && (idx > 0 ==> forall c <- cs :: prev < c)
    decreases n - idx
  {
    hide ReadVarint, I64, Half;
    if idx < n {
      var (wire, next) := ReadVarint(b, at).value;
      var off, moved := if idx > 0 then prev + predict + wire else wire, if idx > 0 then predict + Half(wire) else predict;
      CompressedAscend(b, next, idx + 1, n, moved, off);
      AscendingCons(off, ReadCompressed(b, next, idx + 1, n, moved, off).value.0);
    }
  }

  /** The two lists that a successful read filled in make up the table, strictly ascending. */
  lemma Assemble(es: seq<OffsetPair>, b: seq<byte>, at: nat, has: bool, est: nat)
    requires at <= |b| && ReadUncompressed(b, at, 0, |es|, has, est, 0).Ok?
    requires var us := ReadUncompressed(b, at, 0, |es|, has, est, 0).value;
             && AreUncompressed(es, us.0)
             && ReadCompressed(b, us.1, 0, |es|, est / 2, 0).Ok?
             && AreCompressed(es, ReadCompressed(b, us.1, 0, |es|, est / 2, 0).value.0)
    ensures var us := ReadUncompressed(b, at, 0, |es|, has, est, 0).value;
            es == Zip(ReadCompressed(b, us.1, 0, |es|, est / 2, 0).value.0, us.0)
    ensures Sorted(es)
  {
    hide ReadUncompressed, ReadCompressed;
    var us := ReadUncompressed(b, at, 0, |es|, has, est, 0).value;
    var cs := ReadCompressed(b, us.1, 0, |es|, est / 2, 0).value.0;
    UncompressedAscend(b, at, 0, |es|, has, est, 0);
    CompressedAscend(b, us.1, 0, |es|, est / 2, 0);
    ZipIs(es, cs, us.0);
  }

  lemma NothingToRead(done: seq<nat>, b: seq<byte>, at: nat, n: nat, has: bool, est: int, prev: nat)
    requires at <= |b|
    ensures est >= 0 ==> Prefixed(done, ReadUncompressed(b, at, n, n, has, est, prev)) == Ok((done, at))
    ensures Prefixed(done, ReadCompressed(b, at, n, n, est, prev)) == Ok((done, at))
  {
    assert done + [] == done;
  }
}
