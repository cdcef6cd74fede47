/** Byte strings made by another implementation of MinLZ and kept in the repository's tests: what the
    block decoder makes of three blocks, and a whole stream, which the writer here would write byte
    for byte, index included. */
module Fixtures {
  import opened Bytes
  import BlockSpec
  import Block
  import Crc
  import opened StreamFormat
  import opened StreamSpec
  import opened StreamRoundTrip
  import opened IndexTable
  import opened IndexWire
  import StreamReader

  // -------- blocks of a repeated unit --------

  /** `n` bytes of `unit` over and over. */
  function Cycle(unit: seq<byte>, n: nat): (r: seq<byte>)
    requires unit != []
    ensures |r| == n
  {
    seq(n, i requires 0 <= i < n => unit[i % |unit|])
  }

  lemma CycleMatches(unit: seq<byte>, n: nat, s: nat, length: nat)
    requires unit != [] && |unit| <= s && s + length <= n
    ensures BlockSpec.Matches(Cycle(unit, n), s, |unit|, length)
  {
    var p, c := |unit|, Cycle(unit, n);
    forall i | s <= i < s + length ensures c[i] == c[i - p] {
      DivMod(i - p, p, i / p - 1, i % p);
    }
  }

  lemma CycleStarts(unit: seq<byte>, n: nat)
    requires 1 <= |unit| <= n
    ensures Cycle(unit, n)[..|unit|] == unit
  {
    forall i | 0 <= i < |unit| ensures Cycle(unit, n)[i] == unit[i] {
      DivMod(i, |unit|, 0, i);
    }
  }

  /** A literal of the unit, a copy of 18 bytes, and a repeat of `more` bytes and 30. */
  function CycleBody(unit: seq<byte>, more: nat): seq<byte>
    requires 1 <= |unit| <= 29
  {
    var p := |unit| - 1;
    [8 * p] + unit + [Low8(64 * p + 57), p / 4, 0xf4] + Le16Bytes(more)
  }

  lemma CycleTags(unit: seq<byte>, more: nat)
    requires 1 <= |unit| <= 29 && more < 0x1_0000
    ensures var b, p := CycleBody(unit, more), |unit|;
            && |b| == p + 6
            && BlockSpec.ParseAt(b, 0) == BlockSpec.Tag(BlockSpec.Literal(unit), p + 1)
            && BlockSpec.ParseAt(b, p + 1) == BlockSpec.Tag(BlockSpec.Copy([], p, 18), p + 3)
            && BlockSpec.ParseAt(b, p + 3) == BlockSpec.Tag(BlockSpec.Repeat(more + 30), p + 6)
  {
    var b, p := CycleBody(unit, more), |unit|;
    CycleBytes(unit, more);
    CopyTag(p - 1);
    Le16RoundTrip(more);
    hide CycleBody;
    LiteralTag(b, unit);
    assert BlockSpec.ParseAt(b, p + 1) == BlockSpec.ParseCopy1(b, p + 1);
    assert BlockSpec.ParseAt(b, p + 3) == BlockSpec.ParseLiteralOrRepeat(b, p + 3);
    hide BlockSpec.ParseAt;
  }

  lemma CycleBytes(unit: seq<byte>, more: nat)
    requires 1 <= |unit| <= 29
    ensures var b, p := CycleBody(unit, more), |unit|;
            && |b| == p + 6 && b[0] == 8 * (p - 1) && b[1..1 + p] == unit
            && b[p + 1] == Low8(64 * (p - 1) + 57) && b[p + 2] == (p - 1) / 4 && b[p + 3] == 0xf4
            && b[p + 4] == Le16Bytes(more)[0] && b[p + 5] == Le16Bytes(more)[1]
  {
    hide Low8;
  }

  lemma LiteralTag(b: seq<byte>, unit: seq<byte>)
    requires 1 <= |unit| <= 29 && |b| > |unit| && b[0] == 8 * (|unit| - 1) && b[1..1 + |unit|] == unit
    ensures BlockSpec.ParseAt(b, 0) == BlockSpec.Tag(BlockSpec.Literal(unit), |unit| + 1)
  {
  }

  lemma CopyTag(p: nat)
    requires p < 29
    ensures var lo, hi := Low8(64 * p + 57), p / 4;
            lo % 4 == 1 && lo / 4 % 16 == 14 && (lo + 0x100 * hi) / 64 + 1 == p + 1
  {
    var h, l := p / 4, p % 4;
    DivMod(64 * p + 57, 0x100, h, 64 * l + 57);
    DivMod(64 * l + 57, 4, 16 * l + 14, 1);
    DivMod(16 * l + 14, 16, l, 14);
    DivMod(64 * p + 57, 64, p, 57);
  }

  /** The body decodes to the unit over and over. */
  lemma CycleDecodes(unit: seq<byte>, more: nat)
    requires 1 <= |unit| <= 29 && more < 0x1_0000
    ensures var n := |unit| + 48 + more; BlockSpec.DecodeBody(CycleBody(unit, more), n) == Some(Cycle(unit, n))
  {
    hide BlockSpec.ParseAt, CycleBody, Cycle, BlockSpec.Step;
    var b, p, n := CycleBody(unit, more), |unit|, |unit| + 48 + more;
    var c := Cycle(unit, n);
    CycleTags(unit, more);
    CycleSteps(unit, more);
    assert c[..n] == c;
    var st1, st2, st3 := BlockSpec.State(c[..p], 1), BlockSpec.State(c[..p + 18], p), BlockSpec.State(c, p);
    assert BlockSpec.Run(b, p + 6, st3) == Some(st3);
    assert BlockSpec.Run(b, p + 3, st2) == Some(st3);
    assert BlockSpec.Run(b, p + 1, st1) == Some(st3);
  }

  lemma CycleSteps(unit: seq<byte>, more: nat)
    requires 1 <= |unit| <= 29 && more < 0x1_0000
    ensures var p, c := |unit|, Cycle(unit, |unit| + 48 + more);
            var st1, st2, st3 := BlockSpec.State(c[..p], 1), BlockSpec.State(c[..p + 18], p), BlockSpec.State(c, p);
            && BlockSpec.Step(BlockSpec.INITIAL, BlockSpec.Literal(unit)) == Some(st1)
            && BlockSpec.Step(st1, BlockSpec.Copy([], p, 18)) == Some(st2)
            && BlockSpec.Step(st2, BlockSpec.Repeat(more + 30)) == Some(st3)
  {
    hide Cycle, BlockSpec.ForwardCopy, BlockSpec.Matches;
    var p, n := |unit|, |unit| + 48 + more;
    var c := Cycle(unit, n);
    CycleStarts(unit, n);
    CycleMatches(unit, n, p, 18);
    CycleMatches(unit, n, p + 18, more + 30);
    BlockSpec.CopyAlongMatch(c, p, p, 18);
    BlockSpec.CopyAlongMatch(c, p + 18, p, more + 30);
    assert [] + unit == unit && unit + [] == unit;
    assert c[..n] == c;
  }

  lemma CycleBlock(unit: seq<byte>, more: nat, length: seq<byte>)
    requires 1 <= |unit| <= 29 && more < 0x1_0000 && length == Uvarint(|unit| + 48 + more)
    ensures Block.DecodeBlock([0x00] + length + CycleBody(unit, more)) == Ok(Cycle(unit, |unit| + 48 + more))
  {
    hide Uvarint, BlockSpec.DecodeBody, Block.DecodeBlock;
    CycleDecodes(unit, more);
    CycleTags(unit, more);
    Block.CompressedBlock(Cycle(unit, |unit| + 48 + more), CycleBody(unit, more));
  }

  /** 32 KiB of "foobar ", as another encoder wrote it. */
  lemma Foobar()
    ensures Block.DecodeBlock([0x00, 0x80, 0x80, 0x02, 0x30, 0x66, 0x6f, 0x6f, 0x62, 0x61, 0x72, 0x20,
                               0xb9, 0x01, 0xf4, 0xc9, 0x7f]) ==
            Ok(Cycle([0x66, 0x6f, 0x6f, 0x62, 0x61, 0x72, 0x20], 32768))
  {
    hide Block.DecodeBlock, Cycle;
    var unit: seq<byte> := [0x66, 0x6f, 0x6f, 0x62, 0x61, 0x72, 0x20];
    ThreeByteLength(32768, 0x80, 0x80, 0x02);
    CycleBlock(unit, 0x7fc9, [0x80, 0x80, 0x02]);
    assert [0x00] + [0x80, 0x80, 0x02] + CycleBody(unit, 0x7fc9) ==
           [0x00, 0x80, 0x80, 0x02, 0x30, 0x66, 0x6f, 0x6f, 0x62, 0x61, 0x72, 0x20, 0xb9, 0x01, 0xf4, 0xc9, 0x7f];
  }

  lemma ThreeByteLength(v: nat, a: byte, b: byte, c: byte)
    requires a == 0x80 + v % 0x80 && b == 0x80 + v / 0x80 % 0x80 && 0 < c == v / 0x4000 < 0x80
    ensures Uvarint(v) == [a, b, c]
  {
    assert Uvarint(v / 0x80 / 0x80) == [c];
    assert Uvarint(v / 0x80) == [b, c];
  }

  /** 16 KiB of "abc", as another encoder wrote it. */
  lemma Abc()
    ensures Block.DecodeBlock([0x00, 0x80, 0x80, 0x01, 0x10, 0x61, 0x62, 0x63, 0xb9, 0x00, 0xf4, 0xcd, 0x3f]) ==
            Ok(Cycle([0x61, 0x62, 0x63], 16384))
  {
    hide Block.DecodeBlock, Cycle;
    var unit: seq<byte> := [0x61, 0x62, 0x63];
    ThreeByteLength(16384, 0x80, 0x80, 0x01);
    CycleBlock(unit, 0x3fcd, [0x80, 0x80, 0x01]);
    assert [0x00] + [0x80, 0x80, 0x01] + CycleBody(unit, 0x3fcd) ==
           [0x00, 0x80, 0x80, 0x01, 0x10, 0x61, 0x62, 0x63, 0xb9, 0x00, 0xf4, 0xcd, 0x3f];
  }

  // -------- a whole stream --------

  /** 67 times "a". */
  function Letters(n: nat): seq<byte> { seq(n, _ => 0x61) }

  /** Four more letters through the CRC register. */
  lemma NextWord(n: nat, c: bv32, d: bv32)
    requires Crc.Update(0xffff_ffff, Letters(n)) == c && Crc.WordBits(Crc.Xor(c, 0x6161_6161)) == d
    ensures Crc.Update(0xffff_ffff, Letters(n + 4)) == d
  {
    hide Crc.Update, Crc.Xor, Crc.WordBits, Crc.Word;
    Crc.UpdateConcat(0xffff_ffff, Letters(n), Letters(4));
    assert Letters(n) + Letters(4) == Letters(n + 4);
    Crc.UpdateWord(c, Letters(4));
    FourLetters();
    Crc.WordBitsSteps(Crc.Xor(c, 0x6161_6161));
  }

  lemma FourLetters()
    ensures Crc.Word(Letters(4)) == 0x6161_6161
  {
    assert Crc.Bits(0x61) == 0x61;
    hide Crc.Bits;
  }

  lemma FirstLetters()
    ensures Crc.Update(0xffff_ffff, Letters(32)) == 0x467f_0ef4
  {
    hide Crc.Update, Letters;
    NoLetters();
    NextWord(0, 0xffff_ffff, 0x95ad_114f);
    NextWord(4, 0x95ad_114f, 0x5019_05ab);
    NextWord(8, 0x5019_05ab, 0xe81f_d4e5);
    NextWord(12, 0xe81f_d4e5, 0xb91a_99cc);
    NextWord(16, 0xb91a_99cc, 0x7ff3_6c1a);
    NextWord(20, 0x7ff3_6c1a, 0x5d2a_5bf1);
    NextWord(24, 0x5d2a_5bf1, 0x7658_b910);
    NextWord(28, 0x7658_b910, 0x467f_0ef4);
  }

  lemma NoLetters()
    ensures Crc.Update(0xffff_ffff, Letters(0)) == 0xffff_ffff
  {
    assert Letters(0) == [];
  }

  lemma MostLetters()
    ensures Crc.Update(0xffff_ffff, Letters(64)) == 0xc851_11cc
  {
    hide Crc.Update, Letters;
    FirstLetters();
    NextWord(32, 0x467f_0ef4, 0x484a_4b16);
    NextWord(36, 0x484a_4b16, 0x94ea_0876);
    NextWord(40, 0x94ea_0876, 0xdffa_3430);
    NextWord(44, 0xdffa_3430, 0x6047_22e2);
    NextWord(48, 0x6047_22e2, 0xf9e6_319f);
    NextWord(52, 0xf9e6_319f, 0xdb5e_28cd);
    NextWord(56, 0xdb5e_28cd, 0x2c56_e14c);
    NextWord(60, 0x2c56_e14c, 0xc851_11cc);
  }

  lemma LastLetters()
    ensures Crc.Update(0xffff_ffff, Letters(67)) == 0xe617_1908
  {
    hide Crc.Update, Crc.Bits, Crc.Steps;
    MostLetters();
    NextLetter(64, 0xc851_11cc, 0x1dab_a864);
    NextLetter(65, 0x1dab_a864, 0x35ec_bfb4);
    NextLetter(66, 0x35ec_bfb4, 0xe617_1908);
  }

  lemma NextLetter(n: nat, c: bv32, d: bv32)
    requires Crc.Update(0xffff_ffff, Letters(n)) == c && Crc.EightBits(Crc.Xor(c, 0x61)) == d
    ensures Crc.Update(0xffff_ffff, Letters(n + 1)) == d
  {
    hide Crc.Update, Crc.Xor, Crc.EightBits, Crc.Steps;
    Crc.UpdateConcat(0xffff_ffff, Letters(n), [0x61]);
    assert Letters(n) + [0x61] == Letters(n + 1);
    assert Crc.Bits(0x61) == 0x61;
    Crc.OneByte(c, 0x61);
    Crc.EightBitsSteps(Crc.Xor(c, 0x61));
  }

  lemma LettersChecksum()
    ensures Crc.Checksum(Letters(67)) == 0x7071_1ea9
  {
    hide Crc.Update;
    LastLetters();
    assert Crc.Not(0) == 0xffff_ffff;
    assert Crc.Not(0xe617_1908) == 0x19e8_e6f7;
    assert Crc.MaskCrc32c(0x19e8_e6f7) == 0x7071_1ea9;
  }

  /** 67 letters in a stream with blocks of up to 8 MiB and an index, as another implementation wrote
      them. */
  function OtherStream(): seq<byte> {
    [0xff, 0x06, 0x00, 0x00, 0x4d, 0x69, 0x6e, 0x4c, 0x7a, 0x0d]
    + [0x02, 0x09, 0x00, 0x00, 0xa9, 0x1e, 0x71, 0x70, 0x43, 0x00, 0x61, 0xec, 0x24]
    + [0x20, 0x01, 0x00, 0x00, 0x43]
    + [0x40, 0x1a, 0x00, 0x00, 0x73, 0x32, 0x69, 0x64, 0x78, 0x00,
       0x86, 0x01, 0x38, 0x80, 0x80, 0x80, 0x08, 0x02, 0x00, 0x14,
       0x1e, 0x00, 0x00, 0x00, 0x00, 0x78, 0x64, 0x69, 0x32, 0x73]
  }

  /** Given the same compressed body, the writer's stream is the same, byte for byte. */
  lemma StreamFixture(codec: Codec)
    requires codec(Letters(67)) == Some([0x43, 0x00, 0x61, 0xec, 0x24])
    ensures FinishedBytes(Config(0x80_0000, 0, true), codec, [Data(Letters(67))]) == OtherStream()
  {
    hide HeaderBytes, BlockBytes, EofBytes, Serialize, FinalTable, ItemsBytes, Content, Letters;
    HeaderFixture();
    BlockFixture(codec);
    EofFixture();
    OneBlock(codec);
    TableFixture(codec);
    IndexFixture();
    var items := [Data(Letters(67))];
    var data := DataBytes(0x80_0000, codec, items);
    assert |data| == 28;
    assert PaddingBytes(|data| + |AppendedIndex(Config(0x80_0000, 0, true), codec, items)|, 0) == [];
  }

  lemma HeaderFixture()
    ensures HeaderBytes(0x80_0000) == [0xff, 0x06, 0x00, 0x00, 0x4d, 0x69, 0x6e, 0x4c, 0x7a, 0x0d]
  {
    assert BlockSizeIndicator(0x80_0000) == 13 by {
      hide BitLength, Pow2;
      SmallPowers();
      assert Pow2(22) == 0x40_0000 by { Pow2Double(23); }
      BitLengthFits(0x7f_ffff, 23);
      BitLengthFits(0x7f_ffff, 22);
    }
    hide BlockSizeIndicator;
  }

  lemma BlockFixture(codec: Codec)
    requires codec(Letters(67)) == Some([0x43, 0x00, 0x61, 0xec, 0x24])
    ensures BlockBytes(codec, Letters(67)) == [0x02, 0x09, 0x00, 0x00, 0xa9, 0x1e, 0x71, 0x70, 0x43, 0x00, 0x61, 0xec, 0x24]
  {
    hide Crc.Checksum, Letters;
    LettersChecksum();
    assert Le32Bytes(0x7071_1ea9) == [0xa9, 0x1e, 0x71, 0x70];
  }

  lemma EofFixture()
    ensures EofBytes(67) == [0x20, 0x01, 0x00, 0x00, 0x43]
  {
    assert Uvarint(67) == [0x43];
  }

  lemma OneBlock(codec: Codec)
    ensures var items := [Data(Letters(67))];
            Content(items) == Letters(67) && |Content(items)| == 67 && ItemsBytes(codec, items) == BlockBytes(codec, Letters(67))
  {
    hide BlockBytes;
    assert [Data(Letters(67))][..0] == [];
    assert Content([]) == [] && ItemsBytes(codec, []) == [];
  }

  lemma TableFixture(codec: Codec)
    ensures FinalTable(0x80_0000, codec, [Data(Letters(67))]) == Table([OffsetPair(10, 0)], 0x80_0000)
  {
    hide BlockBytes, HeaderBytes, Letters;
    HeaderFixture();
    var items := [Data(Letters(67))];
    assert items[..0] == [];
    assert Calls(0x80_0000, codec, []) == [] && ItemsBytes(codec, []) == [] && Content([]) == [];
    assert Calls(0x80_0000, codec, items) == [OffsetPair(10, 0)];
    assert [OffsetPair(10, 0)][..0] == [];
    assert AddAll(Reset(0x80_0000), []) == Ok(Reset(0x80_0000));
    assert AddAll(Reset(0x80_0000), [OffsetPair(10, 0)]) == Add(Reset(0x80_0000), OffsetPair(10, 0));
  }

  lemma IndexFixture()
    ensures Serialize(Table([OffsetPair(10, 0)], 0x80_0000), Some(67), Some(28)) ==
            [0x40, 0x1a, 0x00, 0x00, 0x73, 0x32, 0x69, 0x64, 0x78, 0x00,
             0x86, 0x01, 0x38, 0x80, 0x80, 0x80, 0x08, 0x02, 0x00, 0x14,
             0x1e, 0x00, 0x00, 0x00, 0x00, 0x78, 0x64, 0x69, 0x32, 0x73]
  {
    hide Payload;
    PayloadFixture();
    assert Le24Bytes(26) == [0x1a, 0x00, 0x00] && Le32Bytes(30) == [0x1e, 0x00, 0x00, 0x00];
    hide Le24Bytes, Le32Bytes;
  }

  lemma PayloadFixture()
    ensures Payload(Table([OffsetPair(10, 0)], 0x80_0000), Some(67), Some(28)) ==
            [0x86, 0x01, 0x38, 0x80, 0x80, 0x80, 0x08, 0x02, 0x00, 0x14]
  {
    hide Varint, Offsets;
    Varints();
    OffsetsFixture();
  }

  lemma OffsetsFixture()
    ensures Offsets(Table([OffsetPair(10, 0)], 0x80_0000)) == [0x00, 0x14]
  {
    hide Varint;
    Varints();
    var es := [OffsetPair(10, 0)];
    assert CompressedBytes(es, 0x80_0000, 1) == CompressedBytes(es, 0x80_0000, 0) + Varint(10);
  }

  lemma Varints()
    ensures Varint(67) == [0x86, 0x01] && Varint(28) == [0x38] && Varint(1) == [0x02] && Varint(10) == [0x14]
    ensures Varint(0x80_0000) == [0x80, 0x80, 0x80, 0x08]
  {
    assert Uvarint(134) == [0x86, 0x01];
    ThreeByteLength(0x2_0000, 0x80, 0x80, 0x08);
    assert Uvarint(0x100_0000) == [0x80] + Uvarint(0x2_0000);
  }

  // -------- reading it --------

  lemma LettersBody()
    ensures Block.DecodeChunkBody([0x43, 0x00, 0x61, 0xec, 0x24]) == Ok(Letters(67))
  {
    hide Block.DecodeChunkBody, BlockSpec.DecodeBody;
    LettersDecoded();
    assert Uvarint(67) == [0x43];
    LettersLength();
    Block.CompressedChunk(Letters(67), [0x00, 0x61, 0xec, 0x24]);
    assert [0x43] + [0x00, 0x61, 0xec, 0x24] == [0x43, 0x00, 0x61, 0xec, 0x24];
  }

  lemma LettersDecoded()
    ensures BlockSpec.DecodeBody([0x00, 0x61, 0xec, 0x24], 67) == Some(Letters(67))
  {
    hide BlockSpec.ParseAt, BlockSpec.Step, Letters;
    var body: seq<byte>, a := [0x00, 0x61, 0xec, 0x24], Letters(67);
    LettersTags();
    LettersSteps();
    LettersLength();
    var st1, st2 := BlockSpec.State([0x61], 1), BlockSpec.State(a, 1);
    assert BlockSpec.Run(body, 4, st2) == Some(st2);
    assert BlockSpec.Run(body, 2, st1) == Some(st2);
  }

  lemma LettersSteps()
    ensures var st1, st2 := BlockSpec.State([0x61], 1), BlockSpec.State(Letters(67), 1);
            && BlockSpec.Step(BlockSpec.INITIAL, BlockSpec.Literal([0x61])) == Some(st1)
            && BlockSpec.Step(st1, BlockSpec.Repeat(66)) == Some(st2)
  {
    hide BlockSpec.ForwardCopy;
    var a := Letters(67);
    assert BlockSpec.INITIAL.out + [0x61] == [0x61];
    assert a[..1] == [0x61] && a[..67] == a;
    BlockSpec.CopyAlongMatch(a, 1, 1, 66);
  }

  lemma LettersTags()
    ensures var body := [0x00, 0x61, 0xec, 0x24];
            && BlockSpec.ParseAt(body, 0) == BlockSpec.Tag(BlockSpec.Literal([0x61]), 2)
            && BlockSpec.ParseAt(body, 2) == BlockSpec.Tag(BlockSpec.Repeat(66), 4)
  {
    var body: seq<byte> := [0x00, 0x61, 0xec, 0x24];
    assert body[1..2] == [0x61];
  }

  /** An encoder that stores all other blocks as they are. */
  function LettersCodec(): Codec {
    d => if d == Letters(67) then Some([0x43, 0x00, 0x61, 0xec, 0x24]) else None
  }

  /** Readers with the largest block size limit return the letters and end cleanly. */
  lemma StreamFixtureReads(o: Options)
    requires o.maxBlockUser == MAX_BLOCK_SIZE
    ensures var d := Drain(o, Initial(o), OtherStream()); d.bytes == Letters(67) && d.error == None
  {
    hide Drain, OtherStream, Letters, FinishedBytes, AppendedIndex, Negotiated, Block.DecodeChunkBody;
    var c, codec, items := Config(0x80_0000, 0, true), LettersCodec(), [Data(Letters(67))];
    StreamFixture(codec);
    LettersBody();
    FixtureReadable(o);
    DrainFinished(o, Initial(o), c, codec, items, []);
    assert OtherStream() + [] == OtherStream();
    OneBlock(codec);
    assert Letters(67) + [] == Letters(67);
    StreamReader.CleanEnd(o, AfterEof(0x80_0000, items));
  }

  lemma FixtureReadable(o: Options)
    requires o.maxBlockUser == MAX_BLOCK_SIZE
    ensures Readable(o, Config(0x80_0000, 0, true), LettersCodec(), [Data(Letters(67))])
  {
    hide Block.DecodeChunkBody, Letters, Crc.Checksum;
    LettersBody();
    LettersLength();
    OneBlock(LettersCodec());
    BlockFixture(LettersCodec());
    IndicatorInverse(0x80_0000);
  }

  lemma LettersLength()
    ensures |Letters(67)| == 67
  {
  }
}
