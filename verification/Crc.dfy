/** CRC32C (section 12.1 of RFC 3720): the bit-serial definition, the table-driven slice-by-8 form,
    and the three-way folded form around hardware CRC steps.  All agree because the register update
    is linear over exclusive or. */
module Crc {
  import opened Bytes

  const POLY: bv32 := 0x82F6_3B78

  // -------- the bit-serial definition --------

  function Xor(a: bv32, b: bv32): bv32 { a ^ b }

  function Half(c: bv32): bv32 { c >> 1 }

  predicate Odd(c: bv32) { c & 1 != 0 }

  /** One bit through the register. */
  function BitStep(c: bv32): bv32 { if Odd(c) then Xor(Half(c), POLY) else Half(c) }

  function Steps(n: nat, c: bv32): bv32 { if n == 0 then c else Steps(n - 1, BitStep(c)) }

  /** A byte as a word. */
  function Bits(b: byte): bv32 { b as bv32 }

  function Feed(c: bv32, b: byte): bv32 { Steps(8, Xor(c, Bits(b))) }

  /** The register after `data`. */
  function Update(c: bv32, data: seq<byte>): bv32
    decreases |data|
  {
    if data == [] then c else Update(Feed(c, data[0]), data[1..])
  }

  function Not(c: bv32): bv32 { !c }

  /** Continues the CRC `crc` with `data`. */
  function Crc32c(crc: bv32, data: seq<byte>): bv32 { Not(Update(Not(crc), data)) }

  function MaskCrc32c(c: bv32): bv32 { c.RotateRight(15) + 0xa282_ead8 }

  /** The masked checksum stored in a chunk, as the number its four bytes spell. */
  function Checksum(data: seq<byte>): (r: nat)
    ensures r < 0x1_0000_0000
  {
    MaskCrc32c(Crc32c(0, data)) as nat
  }

  // -------- exclusive or --------

  lemma XorLaws(a: bv32, b: bv32, c: bv32)
    ensures Xor(Xor(a, b), c) == Xor(a, Xor(b, c)) && Xor(a, b) == Xor(b, a)
    ensures Xor(Xor(a, b), b) == a && Xor(a, 0) == a
  {
  }

  lemma HalfXor(a: bv32, b: bv32)
    ensures Half(Xor(a, b)) == Xor(Half(a), Half(b))
  {
  }

  lemma OddXor(a: bv32, b: bv32)
    ensures Odd(Xor(a, b)) == (Odd(a) != Odd(b))
  {
  }

  lemma NotTwice(c: bv32)
    ensures Not(Not(c)) == c
  {
  }

  // -------- linearity --------

  lemma BitStepLinear(a: bv32, b: bv32)
    ensures BitStep(Xor(a, b)) == Xor(BitStep(a), BitStep(b))
  {
    HalfXor(a, b);
    OddXor(a, b);
    var p, q := Half(a), Half(b);
    XorLaws(p, POLY, q);
    XorLaws(POLY, q, q);
    XorLaws(p, q, POLY);
    XorLaws(Xor(p, POLY), q, POLY);
    XorLaws(Xor(p, q), POLY, POLY);
    hide Xor, Half, Odd;
  }

  lemma {:induction false} StepsLinear(n: nat, a: bv32, b: bv32)
    ensures Steps(n, Xor(a, b)) == Xor(Steps(n, a), Steps(n, b))
  {
    hide BitStep, Xor;
    if n > 0 {
      BitStepLinear(a, b);
      StepsLinear(n - 1, BitStep(a), BitStep(b));
    }
  }

  lemma {:induction false} StepsSum(m: nat, n: nat, c: bv32)
    ensures Steps(m + n, c) == Steps(n, Steps(m, c))
    decreases m
  {
    hide BitStep;
    if m > 0 {
      StepsSum(m - 1, n, BitStep(c));
    }
  }

  lemma {:induction false} StepsZero(n: nat)
    ensures Steps(n, 0) == 0
  {
    if n > 0 {
      assert BitStep(0) == 0;
      StepsZero(n - 1);
    }
  }

  lemma FourEvenBits(c: bv32)
    requires c & 0xf == 0
    ensures !Odd(c) && !Odd(Half(c)) && !Odd(Half(Half(c))) && !Odd(Half(Half(Half(c))))
    ensures Half(Half(Half(Half(c)))) == c >> 4
  {
  }

  lemma FourSteps(n: nat, c: bv32)
    requires c & 0xf == 0
    ensures Steps(n + 4, c) == Steps(n, c >> 4)
  {
    FourEvenBits(c);
    hide Odd, Half;
    assert Steps(n + 4, c) == Steps(n + 3, Half(c));
    assert Steps(n + 3, Half(c)) == Steps(n + 2, Half(Half(c)));
    assert Steps(n + 2, Half(Half(c))) == Steps(n + 1, Half(Half(Half(c))));
  }

  lemma EvenByte(c: bv32)
    requires c & 0xff == 0
    ensures c & 0xf == 0 && (c >> 4) & 0xf == 0 && (c >> 4) >> 4 == c >> 8
  {
  }

  /** Eight steps only shift when the low byte is clear. */
  lemma EightSteps(n: nat, c: bv32)
    requires c & 0xff == 0
    ensures Steps(n + 8, c) == Steps(n, c >> 8)
  {
    EvenByte(c);
    FourSteps(n + 4, c);
    FourSteps(n, c >> 4);
  }

  // -------- whole updates --------

  lemma {:induction false} UpdateConcat(c: bv32, a: seq<byte>, b: seq<byte>)
    ensures Update(c, a + b) == Update(Update(c, a), b)
    decreases |a|
  {
    if a == [] {
      assert a + b == b;
    } else {
      assert (a + b)[1..] == a[1..] + b;
      UpdateConcat(Feed(c, a[0]), a[1..], b);
    }
  }

  /** Updating over `a` and then over `b` is updating over `a + b`. */
  lemma CrcConcat(crc: bv32, a: seq<byte>, b: seq<byte>)
    ensures Crc32c(Crc32c(crc, a), b) == Crc32c(crc, a + b)
  {
    UpdateConcat(Not(crc), a, b);
    NotTwice(Update(Not(crc), a));
  }

  /** The register's starting value contributes what as many zero bytes would make of it. */
  lemma {:induction false} UpdateLinear(c: bv32, data: seq<byte>)
    ensures Update(c, data) == Xor(Steps(8 * |data|, c), Update(0, data))
    decreases |data|
  {
    hide Xor, BitStep;
    XorLaws(c, 0, 0);
    if data != [] {
      var b, rest := Bits(data[0]), data[1..];
      XorLaws(b, 0, 0);
      XorLaws(0, b, 0);
      UpdateLinear(Feed(c, data[0]), rest);
      UpdateLinear(Feed(0, data[0]), rest);
      StepsLinear(8, c, b);
      StepsLinear(8 * |rest|, Steps(8, c), Steps(8, b));
      StepsSum(8, 8 * |rest|, c);
      XorLaws(Steps(8 * |data|, c), Steps(8 * |rest|, Steps(8, b)), Update(0, rest));
    }
  }

  /** Three equal-length streams, two of them started from zero, folded into one register. */
  lemma ThreeWayFold(c: bv32, a: seq<byte>, b: seq<byte>, d: seq<byte>)
    ensures Update(c, a + b + d) ==
            Xor(Steps(8 * |d|, Xor(Steps(8 * |b|, Update(c, a)), Update(0, b))), Update(0, d))
  {
    UpdateConcat(c, a + b, d);
    UpdateConcat(c, a, b);
    UpdateLinear(Update(c, a), b);
    UpdateLinear(Update(c, a + b), d);
  }

  // -------- words --------

  function Byte0(x: bv32): bv32 { x & 0xff }
  function Byte1(x: bv32): bv32 { (x >> 8) & 0xff }
  function Byte2(x: bv32): bv32 { (x >> 16) & 0xff }
  function Byte3(x: bv32): bv32 { (x >> 24) & 0xff }

  /** Byte `x` in position `k` of a word. */
  function Place(x: bv32, k: nat): bv32
    requires k < 4
  {
    if k == 0 then x else if k == 1 then x << 8 else if k == 2 then x << 16 else x << 24
  }

  function Join(x0: bv32, x1: bv32, x2: bv32, x3: bv32): bv32 {
    Xor(Xor(Xor(x0, Place(x1, 1)), Place(x2, 2)), Place(x3, 3))
  }

  lemma SplitWord(x: bv32)
    ensures Join(Byte0(x), Byte1(x), Byte2(x), Byte3(x)) == x
    ensures Byte0(x) <= 0xff && Byte1(x) <= 0xff && Byte2(x) <= 0xff && Byte3(x) <= 0xff
  {
  }

  lemma PlacedLowest(x: bv32)
    ensures Place(x, 0) == x
  {
  }

  lemma PlacedByte(x: bv32, k: nat)
    requires x <= 0xff && 1 <= k < 4
    ensures Place(x, k) & 0xff == 0 && Place(x, k) >> 8 == Place(x, k - 1)
  {
  }

  /** A byte higher up in the register takes eight more steps to come down per position. */
  lemma StepsPlaced(n: nat, x: bv32, k: nat)
    requires x <= 0xff && k < 4
    ensures Steps(n + 8 * k, Place(x, k)) == Steps(n, x)
    decreases k
  {
    if k > 0 {
      PlacedByte(x, k);
      EightSteps(n + 8 * (k - 1), Place(x, k));
      StepsPlaced(n, x, k - 1);
    }
  }

  lemma StepsJoin(n: nat, x0: bv32, x1: bv32, x2: bv32, x3: bv32)
    ensures Steps(n, Join(x0, x1, x2, x3)) ==
            Xor(Xor(Xor(Steps(n, x0), Steps(n, Place(x1, 1))), Steps(n, Place(x2, 2))), Steps(n, Place(x3, 3)))
  {
    hide Xor, Place, Steps;
    StepsLinear(n, x0, Place(x1, 1));
    StepsLinear(n, Xor(x0, Place(x1, 1)), Place(x2, 2));
    StepsLinear(n, Xor(Xor(x0, Place(x1, 1)), Place(x2, 2)), Place(x3, 3));
  }

  /** The little-endian word of four bytes. */
  function Word(b: seq<byte>): bv32
    requires |b| == 4
  {
    Join(Bits(b[0]), Bits(b[1]), Bits(b[2]), Bits(b[3]))
  }

  lemma ByteFits(b: byte)
    ensures Bits(b) <= 0xff
  {
  }

  /** Adding a byte after `n` steps is adding it, placed above them, before. */
  lemma FeedLate(n: nat, x: bv32, b: byte, k: nat)
    requires 1 <= k < 4 && n == 8 * k
    ensures Feed(Steps(n, x), b) == Steps(n + 8, Xor(x, Place(Bits(b), k)))
  {
    hide Xor, Place, BitStep;
    ByteFits(b);
    StepsPlaced(0, Bits(b), k);
    assert Steps(n, Place(Bits(b), k)) == Steps(0, Bits(b));
    StepsLinear(n, x, Place(Bits(b), k));
    StepsSum(n, 8, Xor(x, Place(Bits(b), k)));
  }

  /** Four bytes at once. */
  lemma UpdateWord(c: bv32, b: seq<byte>)
    requires |b| == 4
    ensures Update(c, b) == Steps(32, Xor(c, Word(b)))
  {
    hide Xor, Place, Steps;
    var x0, x1, x2, x3 := Bits(b[0]), Bits(b[1]), Bits(b[2]), Bits(b[3]);
    var y0 := Xor(c, x0);
    var y1 := Xor(y0, Place(x1, 1));
    var y2 := Xor(y1, Place(x2, 2));
    FeedLate(8, y0, b[1], 1);
    FeedLate(16, y1, b[2], 2);
    FeedLate(24, y2, b[3], 3);
    assert b[1..][1..] == b[2..] && b[2..][1..] == b[3..] && b[3..][1..] == [];
    XorLaws(c, x0, Place(x1, 1));
    XorLaws(c, Xor(x0, Place(x1, 1)), Place(x2, 2));
    XorLaws(c, Xor(Xor(x0, Place(x1, 1)), Place(x2, 2)), Place(x3, 3));
    UpdateFour(c, b);
  }

  lemma UpdateFour(c: bv32, b: seq<byte>)
    requires |b| == 4
    ensures Update(c, b) == Feed(Feed(Feed(Feed(c, b[0]), b[1]), b[2]), b[3])
  {
    hide Feed;
    var c1 := Feed(c, b[0]);
    var c2 := Feed(c1, b[1]);
    var c3 := Feed(c2, b[2]);
    assert Update(c, b) == Update(c1, b[1..]);
    assert Update(c1, b[1..]) == Update(c2, b[1..][1..]) && b[1..][1..] == b[2..];
    assert Update(c2, b[2..]) == Update(c3, b[2..][1..]) && b[2..][1..] == b[3..];
    assert Update(c3, b[3..]) == Update(Feed(c3, b[3]), b[3..][1..]) && b[3..][1..] == [];
  }

  /** Eight bytes at once: the second word is reached after 32 steps. */
  lemma UpdateTwoWords(c: bv32, b: seq<byte>)
    requires |b| == 8
    ensures Update(c, b) == Xor(Steps(64, Xor(Word(b[..4]), c)), Steps(32, Word(b[4..])))
  {
    hide Xor, Steps, Word;
    assert b == b[..4] + b[4..];
    UpdateConcat(c, b[..4], b[4..]);
    UpdateWord(c, b[..4]);
    UpdateWord(Update(c, b[..4]), b[4..]);
    XorLaws(c, Word(b[..4]), 0);
    var x := Xor(Word(b[..4]), c);
    StepsLinear(32, Steps(32, x), Word(b[4..]));
    StepsSum(32, 32, x);
  }

  // -------- tables --------

  /** `t[i]` is the register after `n` steps from byte `i` in position `k`. */
  ghost predicate StepTable(t: seq<bv32>, n: nat, k: nat) {
    k < 4 && |t| == 256 && forall i :: 0 <= i < 256 ==> t[i] == Steps(n, Place(i as bv32, k))
  }

  function Index(x: bv32): (i: nat)
    requires x <= 0xff
    ensures i < 256 && i as bv32 == x
  {
    IndexFits(x);
    x as nat
  }

  lemma IndexFits(x: bv32)
    requires x <= 0xff
    ensures x as nat < 256 && x as nat as bv32 == x
  {
    assert x == x & 0xff;
  }

  lemma Lookup(t: seq<bv32>, n: nat, k: nat, x: bv32)
    requires StepTable(t, n, k) && x <= 0xff
    ensures t[Index(x)] == Steps(n, Place(x, k))
  {
    hide Place, Steps;
  }

  /** One register step of the byte-wise table form. */
  lemma TableStep(t: seq<bv32>, c: bv32)
    requires StepTable(t, 8, 0)
    ensures Byte0(c) <= 0xff && Xor(t[Index(Byte0(c))], c >> 8) == Steps(8, c)
  {
    HighBytes(c);
    Lookup(t, 8, 0, Byte0(c));
    EightSteps(0, c & 0xffff_ff00);
    StepsLinear(8, Byte0(c), c & 0xffff_ff00);
    hide Xor, Byte0, BitStep;
    assert Steps(0, c >> 8) == c >> 8;
  }

  lemma HighBytes(c: bv32)
    ensures Byte0(c) <= 0xff && Xor(Byte0(c), c & 0xffff_ff00) == c
    ensures (c & 0xffff_ff00) & 0xff == 0 && (c & 0xffff_ff00) >> 8 == c >> 8
  {
  }

  method BuildTable() returns (table: seq<bv32>)
    ensures StepTable(table, 8, 0)
  {
    table := seq(256, _ => 0);
    var i := 0;
    while i < 256
      invariant i <= 256 && |table| == 256
      invariant forall k :: 0 <= k < i ==> table[k] == Steps(8, Place(k as bv32, 0))
    {
      var c, j := i as bv32, 0;
      while j < 8
        invariant j <= 8 && Steps(8 - j, c) == Steps(8, i as bv32)
      {
        c := BitStep(c);
        j := j + 1;
      }
      table := table[i := c];
      i := i + 1;
    }
  }

  /** The `k`th slice table: byte `b` followed by `k` zero bytes. */
  ghost predicate SliceTables(tables: seq<seq<bv32>>) {
    |tables| == 8 && forall k :: 0 <= k < 8 ==> StepTable(tables[k], 8 * k + 8, 0)
  }

  method BuildSliceTable(t: seq<bv32>) returns (tables: seq<seq<bv32>>)
    requires StepTable(t, 8, 0)
    ensures SliceTables(tables)
  {
    hide Xor, Byte0, Steps;
    tables := [t];
    var k := 1;
    while k < 8
      invariant 1 <= k <= 8 && |tables| == k && tables[0] == t
      invariant forall m :: 0 <= m < k ==> StepTable(tables[m], 8 * m + 8, 0)
    {
      var row, b := seq(256, _ => 0), 0;
      while b < 256
        invariant b <= 256 && |row| == 256
        invariant forall m :: 0 <= m < b ==> row[m] == Steps(8 * k + 8, Place(m as bv32, 0))
      {
        var prev := tables[k - 1][b];
        TableStep(t, prev);
        XorLaws(prev >> 8, tables[0][Index(Byte0(prev))], 0);
        StepsSum(8 * k, 8, Place(b as bv32, 0));
        row := row[b := Xor(prev >> 8, tables[0][Index(Byte0(prev))])];
        b := b + 1;
      }
      tables := tables + [row];
      k := k + 1;
    }
  }

  /** Four lookups, one per byte of a word, in tables `k + 3` down to `k`. */
  function LookupWord(st: seq<seq<bv32>>, k: nat, x: bv32): bv32
    requires SliceTables(st) && k + 3 < 8
  {
    SplitWord(x);
    Xor(Xor(Xor(st[k + 3][Index(Byte0(x))], st[k + 2][Index(Byte1(x))]), st[k + 1][Index(Byte2(x))]), st[k][Index(Byte3(x))])
  }

  /** They advance the word by `8 * k + 32` steps. */
  lemma LookupWordSteps(st: seq<seq<bv32>>, k: nat, x: bv32)
    requires SliceTables(st) && k + 3 < 8
    ensures LookupWord(st, k, x) == Steps(8 * k + 32, x)
  {
    hide Xor, Place, Byte0, Byte1, Byte2, Byte3, Steps, Join;
    SplitWord(x);
    var x0, x1, x2, x3 := Byte0(x), Byte1(x), Byte2(x), Byte3(x);
    PlacedLowest(x0);
    PlacedLowest(x1);
    PlacedLowest(x2);
    PlacedLowest(x3);
    StepsJoin(8 * k + 32, x0, x1, x2, x3);
    StepsPlaced(8 * k + 24, x1, 1);
    StepsPlaced(8 * k + 16, x2, 2);
    StepsPlaced(8 * k + 8, x3, 3);
    Lookup(st[k + 3], 8 * k + 32, 0, x0);
    Lookup(st[k + 2], 8 * k + 24, 0, x1);
    Lookup(st[k + 1], 8 * k + 16, 0, x2);
    Lookup(st[k], 8 * k + 8, 0, x3);
  }

  /** The slice-by-8 expression for one 8-byte chunk. */
  function SliceStep(st: seq<seq<bv32>>, v0: bv32, v1: bv32): bv32
    requires SliceTables(st)
  {
    Xor(LookupWord(st, 4, v0), LookupWord(st, 0, v1))
  }

  lemma SliceStepCorrect(st: seq<seq<bv32>>, c: bv32, chunk: seq<byte>)
    requires SliceTables(st) && |chunk| == 8
    ensures SliceStep(st, Xor(Word(chunk[..4]), c), Word(chunk[4..])) == Update(c, chunk)
  {
    hide Xor, LookupWord, Steps, Word, Update, SliceTables;
    LookupWordSteps(st, 4, Xor(Word(chunk[..4]), c));
    LookupWordSteps(st, 0, Word(chunk[4..]));
    UpdateTwoWords(c, chunk);
  }

  /** The portable CRC: slice-by-8 with a byte-wise tail. */
  method UpdateTable(crc: bv32, data: seq<byte>, t: seq<bv32>, st: seq<seq<bv32>>) returns (r: bv32)
    requires StepTable(t, 8, 0) && SliceTables(st)
    ensures r == Crc32c(crc, data)
  {
    hide Xor, Not, Byte0, Steps, Word, SliceStep, Index, SliceTables, StepTable, Update, Feed;
    var c, i := Not(crc), 0;
    NoData(c);
    while i + 8 <= |data|
      invariant i <= |data| && c == Update(Not(crc), data[..i])
    {
      var chunk := data[i..i + 8];
      SliceStepCorrect(st, c, chunk);
      UpdateConcat(Not(crc), data[..i], chunk);
      assert data[..i] + chunk == data[..i + 8];
      c := SliceStep(st, Xor(Word(chunk[..4]), c), Word(chunk[4..]));
      i := i + 8;
    }
    while i < |data|
      invariant i <= |data| && c == Update(Not(crc), data[..i])
    {
      TableFeed(t, c, data[i]);
      UpdateConcat(Not(crc), data[..i], [data[i]]);
      assert data[..i] + [data[i]] == data[..i + 1];
      c := Xor(t[Index(Byte0(Xor(c, Bits(data[i]))))], c >> 8);
      i := i + 1;
    }
    assert data[..i] == data;
    r := Not(c);
  }

  lemma NoData(c: bv32)
    ensures Update(c, []) == c
  {
  }

  /** One byte of the byte-wise table form. */
  lemma TableFeed(t: seq<bv32>, c: bv32, b: byte)
    requires StepTable(t, 8, 0)
    ensures |t| == 256 && Byte0(Xor(c, Bits(b))) <= 0xff
    ensures Xor(t[Index(Byte0(Xor(c, Bits(b))))], c >> 8) == Update(c, [b])
  {
    TableStep(t, Xor(c, Bits(b)));
    ByteDoesNotReach(c, b);
    OneByte(c, b);
  }

  lemma ByteDoesNotReach(c: bv32, b: byte)
    ensures Xor(c, Bits(b)) >> 8 == c >> 8
  {
    ByteFits(b);
    HighPart(c, Bits(b));
  }

  lemma HighPart(c: bv32, x: bv32)
    requires x <= 0xff
    ensures Xor(c, x) >> 8 == c >> 8
  {
  }

  // -------- the three-way fold --------

  const STRIDE_BYTES: nat := 1024

  ghost predicate ShiftTables(tables: seq<seq<bv32>>) {
    |tables| == 4 && forall k :: 0 <= k < 4 ==> StepTable(tables[k], 8 * STRIDE_BYTES, k)
  }

  /** Runs `STRIDE_BYTES` zero bytes from every byte in every position. */
  method BuildShiftTable(t: seq<bv32>) returns (tables: seq<seq<bv32>>)
    requires StepTable(t, 8, 0)
    ensures ShiftTables(tables)
  {
    hide Xor, Byte0, Steps, Place;
    tables := [];
    var k := 0;
    while k < 4
      invariant k <= 4 && |tables| == k
      invariant forall m :: 0 <= m < k ==> StepTable(tables[m], 8 * STRIDE_BYTES, m)
    {
      var row, b := seq(256, _ => 0), 0;
      while b < 256
        invariant b <= 256 && |row| == 256
        invariant forall m :: 0 <= m < b ==> row[m] == Steps(8 * STRIDE_BYTES, Place(m as bv32, k))
      {
        var c, j := Place(b as bv32, k), 0;
        assert Steps(0, c) == c by { StepsSum(0, 0, c); NoSteps(c); }
        while j < STRIDE_BYTES
          invariant j <= STRIDE_BYTES && c == Steps(8 * j, Place(b as bv32, k))
        {
          TableStep(t, c);
          StepsSum(8 * j, 8, Place(b as bv32, k));
          c := Xor(t[Index(Byte0(c))], c >> 8);
          j := j + 1;
        }
        row := row[b := c];
        b := b + 1;
      }
      tables := tables + [row];
      k := k + 1;
    }
  }

  lemma NoSteps(c: bv32)
    ensures Steps(0, c) == c
  {
  }

  /** `shift_crc`: four lookups stand for `STRIDE_BYTES` zero bytes. */
  function ShiftCrc(sh: seq<seq<bv32>>, c: bv32): (r: bv32)
    requires ShiftTables(sh)
    ensures r == Steps(8 * STRIDE_BYTES, c)
  {
    SplitWord(c);
    ShiftCrcCorrect(sh, c);
    Xor(Xor(Xor(sh[0][Index(Byte0(c))], sh[1][Index(Byte1(c))]), sh[2][Index(Byte2(c))]), sh[3][Index(Byte3(c))])
  }

  lemma ShiftCrcCorrect(sh: seq<seq<bv32>>, c: bv32)
    requires ShiftTables(sh)
    ensures Byte0(c) <= 0xff && Byte1(c) <= 0xff && Byte2(c) <= 0xff && Byte3(c) <= 0xff
    ensures Xor(Xor(Xor(sh[0][Index(Byte0(c))], sh[1][Index(Byte1(c))]), sh[2][Index(Byte2(c))]), sh[3][Index(Byte3(c))])
            == Steps(8 * STRIDE_BYTES, c)
  {
    hide Xor, Place, Byte0, Byte1, Byte2, Byte3, Steps, Join;
    SplitWord(c);
    var x0, x1, x2, x3 := Byte0(c), Byte1(c), Byte2(c), Byte3(c);
    PlacedLowest(x0);
    var n := 8 * STRIDE_BYTES;
    StepsJoin(n, x0, x1, x2, x3);
    Lookup(sh[0], n, 0, x0);
    Lookup(sh[1], n, 1, x1);
    Lookup(sh[2], n, 2, x2);
    Lookup(sh[3], n, 3, x3);
  }

  /** The hardware 64-bit CRC step, taken to be eight byte steps. */
  function HardwareCrc64(c: bv32, b: seq<byte>): bv32
    requires |b| == 8
  {
    Update(c, b)
  }

  function HardwareCrc8(c: bv32, b: byte): bv32 { Feed(c, b) }

  lemma OneByte(c: bv32, b: byte)
    ensures Update(c, [b]) == Feed(c, b)
  {
    assert [b][1..] == [];
    assert Update(c, [b]) == Update(Feed(c, b), []);
  }

  /** The hardware-accelerated CRC: three interleaved streams per 3 KiB, folded; then one stream. */
  method UpdateFolded(crc: bv32, data: seq<byte>, sh: seq<seq<bv32>>) returns (r: bv32)
    requires ShiftTables(sh)
    ensures r == Crc32c(crc, data)
  {
    hide Xor, Not, Steps, ShiftTables, Update;
    var c, p := Not(crc), 0;
    NoData(c);
    while p + 3 * STRIDE_BYTES <= |data|
      invariant p <= |data| && c == Update(Not(crc), data[..p])
    {
      var s0, s1, s2 := data[p..p + STRIDE_BYTES], data[p + STRIDE_BYTES..p + 2 * STRIDE_BYTES],
                        data[p + 2 * STRIDE_BYTES..p + 3 * STRIDE_BYTES];
      var c0, c1, c2, i := c, 0, 0, 0;
      NoData(c);
      NoData(0);
      while i < STRIDE_BYTES
        invariant i <= STRIDE_BYTES && i % 8 == 0
        invariant c0 == Update(c, s0[..i]) && c1 == Update(0, s1[..i]) && c2 == Update(0, s2[..i])
      {
        UpdateSlice(c, s0, i);
        UpdateSlice(0, s1, i);
        UpdateSlice(0, s2, i);
        c0 := HardwareCrc64(c0, s0[i..i + 8]);
        c1 := HardwareCrc64(c1, s1[i..i + 8]);
        c2 := HardwareCrc64(c2, s2[i..i + 8]);
        i := i + 8;
      }
      assert s0[..i] == s0 && s1[..i] == s1 && s2[..i] == s2;
      ThreeWayFold(c, s0, s1, s2);
      UpdateConcat(Not(crc), data[..p], s0 + s1 + s2);
      assert data[..p] + (s0 + s1 + s2) == data[..p + 3 * STRIDE_BYTES];
      var cAb := Xor(ShiftCrc(sh, c0), c1);
      c := Xor(ShiftCrc(sh, cAb), c2);
      p := p + 3 * STRIDE_BYTES;
    }
    while p + 8 <= |data|
      invariant p <= |data| && c == Update(Not(crc), data[..p])
    {
      UpdateSlice(Not(crc), data, p);
      c := HardwareCrc64(c, data[p..p + 8]);
      p := p + 8;
    }
    while p < |data|
      invariant p <= |data| && c == Update(Not(crc), data[..p])
    {
      UpdateConcat(Not(crc), data[..p], [data[p]]);
      assert data[..p] + [data[p]] == data[..p + 1];
      OneByte(c, data[p]);
      c := HardwareCrc8(c, data[p]);
      p := p + 1;
    }
    assert data[..p] == data;
    r := Not(c);
  }

  lemma UpdateSlice(c: bv32, s: seq<byte>, i: nat)
    requires i + 8 <= |s|
    ensures Update(Update(c, s[..i]), s[i..i + 8]) == Update(c, s[..i + 8])
  {
    UpdateConcat(c, s[..i], s[i..i + 8]);
    assert s[..i] + s[i..i + 8] == s[..i + 8];
  }

  // -------- the checksum of a chunk --------

  /** Takes the mask off again. */
  function UnmaskCrc32c(m: bv32): bv32 { (m - 0xa282_ead8).RotateLeft(15) }

  /** Masking loses nothing: the raw CRC can be recovered from the stored checksum. */
  lemma MaskInvertible(c: bv32)
    ensures UnmaskCrc32c(MaskCrc32c(c)) == c
  {
    AddSub(c.RotateRight(15), 0xa282_ead8);
  }

  lemma AddSub(x: bv32, k: bv32)
    ensures (x + k) - k == x
  {
  }

  lemma WordAsNumber(x: bv32)
    ensures x as nat < 0x1_0000_0000 && x as nat as bv32 == x
  {
  }

  /** A stored checksum, unmasked, is the CRC32C of the bytes. */
  predicate Matches(stored: nat, data: seq<byte>) {
    stored < 0x1_0000_0000 && UnmaskCrc32c(stored as bv32) == Crc32c(0, data)
  }

  /** The checksum of every block matches it. */
  lemma ChecksumUnmasked(data: seq<byte>)
    ensures Matches(Checksum(data), data)
  {
    ChecksumMasked(data);
    hide MaskCrc32c, UnmaskCrc32c, Crc32c, Checksum;
    MaskInvertible(Crc32c(0, data));
  }

  lemma ChecksumMasked(data: seq<byte>)
    ensures Checksum(data) as bv32 == MaskCrc32c(Crc32c(0, data))
  {
    hide MaskCrc32c, Crc32c;
    WordAsNumber(MaskCrc32c(Crc32c(0, data)));
  }

  /** `masked_crc32c`, with or without the processor's CRC instructions. */
  method MaskedCrc32c(data: seq<byte>, hardware: bool) returns (r: bv32)
    ensures r as nat == Checksum(data) && UnmaskCrc32c(r) == Crc32c(0, data)
  {
    hide Crc32c, MaskCrc32c, UnmaskCrc32c, StepTable, SliceTables, ShiftTables;
    var table := BuildTable();
    var c: bv32;
    if hardware {
      var shift := BuildShiftTable(table);
      c := UpdateFolded(0, data, shift);
    } else {
      var slices := BuildSliceTable(table);
      c := UpdateTable(0, data, table, slices);
    }
    MaskInvertible(c);
    return MaskCrc32c(c);
  }

  // -------- what the checksum detects --------

  lemma TopBit(c: bv32)
    ensures (BitStep(c) & 0x8000_0000 != 0) == Odd(c)
  {
  }

  lemma HalfAndLowBit(a: bv32, b: bv32)
    ensures Half(a) == Half(b) && Odd(a) == Odd(b) ==> a == b
  {
  }

  /** No two registers go to the same one, because the top bit of `POLY` tells which way it went. */
  lemma BitStepInjective(a: bv32, b: bv32)
    requires a != b
    ensures BitStep(a) != BitStep(b)
  {
    TopBit(a);
    TopBit(b);
    HalfAndLowBit(a, b);
    XorInjective(Half(a), Half(b), POLY);
    hide Half, Odd, Xor;
  }

  lemma {:induction false} StepsInjective(n: nat, a: bv32, b: bv32)
    requires a != b
    ensures Steps(n, a) != Steps(n, b)
  {
    if n > 0 {
      BitStepInjective(a, b);
      hide BitStep;
      StepsInjective(n - 1, BitStep(a), BitStep(b));
    }
  }

  lemma XorInjective(a: bv32, b: bv32, c: bv32)
    ensures Xor(a, c) == Xor(b, c) || Xor(c, a) == Xor(c, b) ==> a == b
  {
  }

  lemma NotInjective(a: bv32, b: bv32)
    ensures Not(a) == Not(b) ==> a == b
  {
  }

  /** Registers that differ stay different, whatever comes after. */
  lemma {:induction false} UpdateInjective(c: bv32, d: bv32, data: seq<byte>)
    requires c != d
    ensures Update(c, data) != Update(d, data)
    decreases |data|
  {
    if data != [] {
      var x := Bits(data[0]);
      XorInjective(c, d, x);
      StepsInjective(8, Xor(c, x), Xor(d, x));
      hide Xor, Steps;
      UpdateInjective(Feed(c, data[0]), Feed(d, data[0]), data[1..]);
    }
  }

  lemma Nibble(b: nat)
    requires b < 16
    ensures b as bv8 as int == b && b as bv8 < 16
  {
  }

  lemma Nibbles(x: bv8)
    ensures x as int == (x >> 4) as int * 16 + (x & 15) as int
  {
  }

  lemma JoinNibbles(h: bv8, l: bv8)
    requires h < 16 && l < 16
    ensures var x := (h << 4) | l; x >> 4 == h && x & 15 == l
  {
  }

  function FromNibbles(h: nat, l: nat): bv8
    requires h < 16 && l < 16
  {
    ((h as bv8) << 4) | (l as bv8)
  }

  lemma FromNibblesIs(h: nat, l: nat)
    requires h < 16 && l < 16
    ensures FromNibbles(h, l) as int == 16 * h + l
  {
    Nibble(h);
    Nibble(l);
    JoinNibbles(h as bv8, l as bv8);
    Nibbles(FromNibbles(h, l));
  }

  lemma BackAndForth(x: bv8)
    ensures x as nat < 256 && x as nat as bv8 == x
  {
  }

  /** A byte is recovered from its bits. */
  lemma ByteAsBits(b: byte)
    ensures b as bv8 as int == b
  {
    hide FromNibbles;
    FromNibblesIs(b / 16, b % 16);
    BackAndForth(FromNibbles(b / 16, b % 16));
  }

  lemma Widened(b: byte)
    ensures b as bv32 == (b as bv8) as bv32
  {
  }

  lemma WidenInjective(x: bv8, y: bv8)
    ensures x as bv32 == y as bv32 ==> x == y
  {
  }

  lemma SameByte(a: byte, b: byte)
    requires Bits(a) == Bits(b)
    ensures a == b
  {
    ByteAsBits(a);
    ByteAsBits(b);
    Widened(a);
    Widened(b);
    WidenInjective(a as bv8, b as bv8);
  }

  lemma JoinedBytes(x0: bv32, x1: bv32, x2: bv32, x3: bv32)
    requires x0 <= 0xff && x1 <= 0xff && x2 <= 0xff && x3 <= 0xff
    ensures var w := Join(x0, x1, x2, x3); Byte0(w) == x0 && Byte1(w) == x1 && Byte2(w) == x2 && Byte3(w) == x3
  {
  }

  lemma WordBytes(x: seq<byte>)
    requires |x| == 4
    ensures var w := Word(x);
            Byte0(w) == Bits(x[0]) && Byte1(w) == Bits(x[1]) && Byte2(w) == Bits(x[2]) && Byte3(w) == Bits(x[3])
  {
    hide Join, Bits, Byte0, Byte1, Byte2, Byte3;
    ByteFits(x[0]);
    ByteFits(x[1]);
    ByteFits(x[2]);
    ByteFits(x[3]);
    JoinedBytes(Bits(x[0]), Bits(x[1]), Bits(x[2]), Bits(x[3]));
  }

  lemma WordInjective(x: seq<byte>, y: seq<byte>)
    requires |x| == |y| == 4 && x != y
    ensures Word(x) != Word(y)
  {
    hide Word, Bits, Byte0, Byte1, Byte2, Byte3;
    WordBytes(x);
    WordBytes(y);
    var k :| 0 <= k < 4 && x[k] != y[k];
    if Bits(x[k]) == Bits(y[k]) {
      SameByte(x[k], y[k]);
    }
  }

  lemma BurstChangesUpdate(c: bv32, x: seq<byte>, y: seq<byte>)
    requires |x| == |y| <= 4 && x != y
    ensures Update(c, x) != Update(c, y)
    decreases 4 - |x|
  {
    hide Steps, Xor, Word, Update;
    if |x| == 4 {
      UpdateWord(c, x);
      UpdateWord(c, y);
      WordInjective(x, y);
      XorInjective(Word(x), Word(y), c);
      StepsInjective(32, Xor(c, Word(x)), Xor(c, Word(y)));
    } else {
      UpdateConcat(c, x, [0]);
      UpdateConcat(c, y, [0]);
      assert (x + [0])[..|x|] == x && (y + [0])[..|y|] == y;
      BurstChangesUpdate(c, x + [0], y + [0]);
    }
  }

  /** Any difference confined to four bytes in a row changes the checksum, wherever it stands. */
  lemma BurstDetected(a: seq<byte>, x: seq<byte>, y: seq<byte>, b: seq<byte>)
    requires |x| == |y| <= 4 && x != y
    ensures Checksum(a + x + b) != Checksum(a + y + b)
  {
    hide Update, Not, UnmaskCrc32c, Checksum;
    ChecksumUnmasked(a + x + b);
    ChecksumUnmasked(a + y + b);
    var c := Update(Not(0), a);
    UpdateConcat(Not(0), a, x);
    UpdateConcat(Not(0), a, y);
    UpdateConcat(Not(0), a + x, b);
    UpdateConcat(Not(0), a + y, b);
    BurstChangesUpdate(c, x, y);
    UpdateInjective(Update(c, x), Update(c, y), b);
    NotInjective(Update(Update(c, x), b), Update(Update(c, y), b));
  }

  // -------- published values --------

  function EightBits(c: bv32): bv32 { BitStep(BitStep(BitStep(BitStep(BitStep(BitStep(BitStep(BitStep(c)))))))) }

  lemma EightBitsSteps(c: bv32)
    ensures Steps(8, c) == EightBits(c)
  {
    hide BitStep;
    StepsSum(4, 4, c);
    FourBits(c);
    FourBits(Steps(4, c));
  }

  lemma FourBits(c: bv32)
    ensures Steps(4, c) == BitStep(BitStep(BitStep(BitStep(c))))
  {
    hide BitStep;
    TwoBits(c);
    TwoBits(BitStep(BitStep(c)));
    StepsSum(2, 2, c);
  }

  lemma TwoBits(c: bv32)
    ensures Steps(2, c) == BitStep(BitStep(c))
  {
    hide BitStep;
    assert Steps(1, BitStep(c)) == Steps(0, BitStep(BitStep(c)));
  }

  function WordBits(c: bv32): bv32 { EightBits(EightBits(EightBits(EightBits(c)))) }

  lemma WordBitsSteps(c: bv32)
    ensures Steps(32, c) == WordBits(c)
  {
    hide EightBits, Steps;
    var d := Steps(16, c);
    StepsSum(16, 16, c);
    StepsSum(8, 8, c);
    StepsSum(8, 8, d);
    EightBitsSteps(c);
    EightBitsSteps(Steps(8, c));
    EightBitsSteps(d);
    EightBitsSteps(Steps(8, d));
  }

  lemma {:induction false} ZeroBytes(n: nat, c: bv32)
    ensures Update(c, seq(n, _ => 0)) == Steps(8 * n, c)
    decreases n
  {
    hide Xor, BitStep;
    if n > 0 {
      var zeros: seq<byte> := seq(n, _ => 0);
      assert zeros[1..] == seq(n - 1, _ => 0);
      XorLaws(c, 0, 0);
      ZeroBytes(n - 1, Feed(c, 0));
      StepsSum(8, 8 * (n - 1), c);
    }
  }

  lemma ThirtyTwoZeros(c: bv32)
    ensures Update(c, seq(32, _ => 0)) ==
            WordBits(WordBits(WordBits(WordBits(WordBits(WordBits(WordBits(WordBits(c))))))))
  {
    hide WordBits, Steps, Update;
    ZeroBytes(32, c);
    StepsSum(128, 128, c);
    SixteenZeros(c);
    SixteenZeros(Steps(128, c));
  }

  lemma SixteenZeros(c: bv32)
    ensures Steps(128, c) == WordBits(WordBits(WordBits(WordBits(c))))
  {
    hide WordBits, Steps;
    var d := Steps(64, c);
    StepsSum(64, 64, c);
    StepsSum(32, 32, c);
    StepsSum(32, 32, d);
    WordBitsSteps(c);
    WordBitsSteps(Steps(32, c));
    WordBitsSteps(d);
    WordBitsSteps(Steps(32, d));
  }

  /** The check value of section B.4 of RFC 3720 for 32 zero bytes, and its masked form. */
  lemma CheckZeros()
    ensures Crc32c(0, seq(32, _ => 0)) == 0x8a91_36aa
    ensures Checksum(seq(32, _ => 0)) as bv32 == 0x0fd7_fffa
  {
    ThirtyTwoZeros(Not(0));
    ChecksumMasked(seq(32, _ => 0));
    var c := 0xffff_ffff;
    assert Not(0) == c;
    assert WordBits(WordBits(WordBits(WordBits(c)))) == 0xbd8f_6515;
    assert WordBits(WordBits(WordBits(WordBits(0xbd8f_6515)))) == 0x756e_c955;
    hide WordBits, Checksum, Update;
  }

  lemma DigitBits()
    ensures Bits(0x31) == 0x31 && Bits(0x32) == 0x32 && Bits(0x33) == 0x33 && Bits(0x34) == 0x34
    ensures Bits(0x35) == 0x35 && Bits(0x36) == 0x36 && Bits(0x37) == 0x37 && Bits(0x38) == 0x38 && Bits(0x39) == 0x39
  {
  }

  /** The usual check value, that of the digits "123456789", and its masked form. */
  lemma CheckDigits()
    ensures Crc32c(0, [0x31, 0x32, 0x33, 0x34, 0x35, 0x36, 0x37, 0x38, 0x39]) == 0xe306_9283
    ensures Checksum([0x31, 0x32, 0x33, 0x34, 0x35, 0x36, 0x37, 0x38, 0x39]) as bv32 == 0xc78a_b0e5
  {
    hide Bits, Checksum, Update, Steps;
    var a: seq<byte>, b: seq<byte>, d: seq<byte> := [0x31, 0x32, 0x33, 0x34], [0x35, 0x36, 0x37, 0x38], [0x39];
    var data := a + b + d;
    assert data == [0x31, 0x32, 0x33, 0x34, 0x35, 0x36, 0x37, 0x38, 0x39];
    ChecksumMasked(data);
    var c := 0xffff_ffff;
    assert Not(0) == c;
    UpdateConcat(c, a + b, d);
    UpdateConcat(c, a, b);
    DigitBits();
    UpdateWord(c, a);
    WordBitsSteps(Xor(c, Word(a)));
    UpdateWord(0x09c5_0b11, b);
    WordBitsSteps(Xor(0x09c5_0b11, Word(b)));
    OneByte(0x9f78_7f65, 0x39);
    EightBitsSteps(Xor(0x9f78_7f65, Bits(0x39)));
  }
}
