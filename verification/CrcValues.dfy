/** The checksum in numbers: the values that tell this CRC-32 from every other one. */
module CrcValues {
  import opened Seqs
  import opened Words
  import opened Crc
  import opened CrcHeader

  // ---------- published values ----------

  /** The register after the bytes of a message, by the table. */
  function Through(c: bv32, m: seq<bv8>): bv32
    decreases |m|
  {
    if m == [] then c else Through(TableStep(c, m[0]), m[1..])
  }

  lemma {:induction false} ThroughIsRegister(c: bv32, m: seq<bv8>)
    ensures Through(c, m) == Register(c, Bits(m))
    decreases |m|
  {
    hide TableStep, CRCTable, ByteBits;
    if m != [] {
      TableStepIsBitwise(c, m[0]);
      RegisterConcat(c, ByteBits(m[0]), Bits(m[1..]));
      ThroughIsRegister(TableStep(c, m[0]), m[1..]);
    }
  }

  lemma ThroughStep(c: bv32, b: bv8, m: seq<bv8>)
    ensures Through(c, [b] + m) == Through(TableStep(c, b), m)
  {
    hide TableStep;
    assert ([b] + m)[1..] == m;
  }

  lemma NineSteps()
    ensures TableStep(0xFFFF_FFFF, 0x31) == 0x7C23_1048 && TableStep(0x7C23_1048, 0x32) == 0xB0AC_BB32
    ensures TableStep(0xB0AC_BB32, 0x33) == 0x77B7_9C2D && TableStep(0x77B7_9C2D, 0x34) == 0x641C_1F5C
    ensures TableStep(0x641C_1F5C, 0x35) == 0x340A_C5E3 && TableStep(0x340A_C5E3, 0x36) == 0xF68D_2C9E
    ensures TableStep(0xF68D_2C9E, 0x37) == 0xAFFC_9660 && TableStep(0xAFFC_9660, 0x38) == 0x651F_2550
    ensures TableStep(0x651F_2550, 0x39) == 0x340B_C6D9
  {
  }

  /** The text "123456789". */
  const NINE_DIGITS: seq<bv8> := [0x31, 0x32, 0x33, 0x34, 0x35, 0x36, 0x37, 0x38, 0x39]

  lemma FirstDigits()
    ensures Through(0xFFFF_FFFF, NINE_DIGITS) == Through(0x641C_1F5C, NINE_DIGITS[4..])
  {
    NineSteps();
    hide TableStep, Through;
    var m := NINE_DIGITS;
    assert m == [0x31] + m[1..] && m[1..] == [0x32] + m[2..] && m[2..] == [0x33] + m[3..] && m[3..] == [0x34] + m[4..];
    ThroughStep(0xFFFF_FFFF, 0x31, m[1..]);
    ThroughStep(0x7C23_1048, 0x32, m[2..]);
    ThroughStep(0xB0AC_BB32, 0x33, m[3..]);
    ThroughStep(0x77B7_9C2D, 0x34, m[4..]);
  }

  lemma LastDigits()
    ensures Through(0x641C_1F5C, NINE_DIGITS[4..]) == 0x340B_C6D9
  {
    NineSteps();
    assert Through(0x340B_C6D9, []) == 0x340B_C6D9;
    hide TableStep, Through;
    var m := NINE_DIGITS[4..];
    assert m == [0x35] + m[1..] && m[1..] == [0x36] + m[2..] && m[2..] == [0x37] + m[3..];
    assert m[3..] == [0x38] + m[4..] && m[4..] == [0x39] + [];
    ThroughStep(0x641C_1F5C, 0x35, m[1..]);
    ThroughStep(0x340A_C5E3, 0x36, m[2..]);
    ThroughStep(0xF68D_2C9E, 0x37, m[3..]);
    ThroughStep(0xAFFC_9660, 0x38, m[4..]);
    ThroughStep(0x651F_2550, 0x39, []);
  }

  /** Nothing has the checksum zero, and the nine digits have the check value that is published for CRC-32. */
  lemma CheckValues()
    ensures Crc32([]) == 0
    ensures Crc32(NINE_DIGITS) == 0xCBF4_3926
  {
    FirstDigits();
    LastDigits();
    ThroughIsRegister(0xFFFF_FFFF, NINE_DIGITS);
    assert Crc32([]) == Xor(INITIAL, INITIAL);
    hide Register, Bits, Through;
  }

  // ---------- the residue ----------

  lemma {:induction false} LowBitsSplit(w: bv32, a: nat, b: nat)
    ensures LowBits(w, a + b) == LowBits(w, a) + LowBits(HighPart(w, a), b)
    decreases a
  {
    hide Odd, Half;
    if a > 0 {
      LowBitsSplit(Half(w), a - 1, b);
      Assoc([Odd(w)], LowBits(Half(w), a - 1), LowBits(HighPart(w, a), b));
    }
  }

  lemma {:induction false} HighPartSplit(w: bv32, a: nat, b: nat)
    ensures HighPart(w, a + b) == HighPart(HighPart(w, a), b)
    decreases a
  {
    hide Half;
    if a > 0 {
      HighPartSplit(Half(w), a - 1, b);
    }
  }

  lemma LowestBits(w: bv32)
    ensures ByteBits((w & 0xFF) as bv8) == LowBits(w, 8)
  {
    assert ((w & 0xFF) as bv8) as bv32 == w & 0xFF;
    assert (w & 0xFF) & 0xFF == w & 0xFF;
    LowByte(w & 0xFF, w);
  }

  function Shifted(w: bv32): bv32 {
    w >> 8
  }

  lemma ShiftedBytes(w: bv32)
    ensures HighPart(w, 8) == Shifted(w)
    ensures ByteBits((w & 0xFF) as bv8) == LowBits(w, 8)
  {
    HighPart8(w);
    LowestBits(w);
  }

  lemma StoredBytes(w: bv32)
    ensures var b, w1 := WordBytes(w), Shifted(w);
            var w2 := Shifted(w1);
            var w3 := Shifted(w2);
            && b[0] == (w & 0xFF) as bv8 && b[1] == (w1 & 0xFF) as bv8
            && b[2] == (w2 & 0xFF) as bv8 && b[3] == (w3 & 0xFF) as bv8 && Shifted(w3) == 0
  {
  }

  /** The bits of a stored word are those of the word, lowest first. */
  lemma WordBits(w: bv32)
    ensures Bits(WordBytes(w)) == LowBits(w, 32) && HighPart(w, 32) == 0
  {
    hide LowBits, HighPart, ByteBits, Bits, WordBytes, Shifted;
    var w1 := Shifted(w);
    var w2 := Shifted(w1);
    StoredBytes(w);
    ShiftedBytes(w);
    ShiftedBytes(w1);
    ShiftedBytes(w2);
    ShiftedBytes(Shifted(w2));
    FourBytes(WordBytes(w));
    LowBitsSplit(w, 8, 24);
    LowBitsSplit(w1, 8, 16);
    LowBitsSplit(w2, 8, 8);
    HighPartSplit(w, 8, 24);
    HighPartSplit(w1, 8, 16);
    HighPartSplit(w2, 8, 8);
  }

  lemma FourBytes(b: seq<bv8>)
    requires |b| == 4
    ensures Bits(b) == ByteBits(b[0]) + (ByteBits(b[1]) + (ByteBits(b[2]) + ByteBits(b[3])))
  {
    hide ByteBits;
    assert b[1..][1..] == b[2..] && b[2..][1..] == b[3..] && b[3..] == [b[3]];
    assert Bits(b) == ByteBits(b[0]) + Bits(b[1..]);
    assert Bits(b[1..]) == ByteBits(b[1]) + Bits(b[2..]);
    assert Bits(b[2..]) == ByteBits(b[2]) + Bits(b[3..]);
    OneByte(b[3]);
  }

  lemma AllOnes()
    ensures Steps(32, 0xFFFF_FFFF) == 0xDEBB_20E3
  {
    assert ByteStep(0xFFFF_FFFF) == 0x2DFD_1072 && ByteStep(0x2DFD_1072) == 0xBE26_ED00;
    assert ByteStep(0xBE26_ED00) == 0x00BE_26ED && ByteStep(0x00BE_26ED) == 0xDEBB_20E3;
    hide ByteStep, Steps;
    ByteStepIsSteps(0xFFFF_FFFF);
    ByteStepIsSteps(0x2DFD_1072);
    ByteStepIsSteps(0xBE26_ED00);
    ByteStepIsSteps(0x00BE_26ED);
    StepsSplit(8, 24, 0xFFFF_FFFF);
    StepsSplit(8, 16, 0x2DFD_1072);
    StepsSplit(8, 8, 0xBE26_ED00);
  }

  lemma {:induction false} StepsSplit(a: nat, b: nat, x: bv32)
    ensures Steps(a + b, x) == Steps(b, Steps(a, x))
    decreases a
  {
    hide BitStep;
    if a > 0 {
      StepsSplit(a - 1, b, BitStep(x));
    }
  }

  lemma InvertedSum(r: bv32)
    ensures Xor(r, Xor(r, INITIAL)) == 0xFFFF_FFFF && Xor(0xDEBB_20E3, INITIAL) == 0x2144_DF1C
  {
  }

  /** A message with its checksum behind it, lowest byte first, has the same checksum for every message. */
  lemma Residue(m: seq<bv8>)
    ensures Crc32(m + WordBytes(Crc32(m))) == 0x2144_DF1C
  {
    hide Register, Bits, WordBytes, Steps, Xor, HighPart, LowBits, INITIAL;
    var r := Register(INITIAL, Bits(m));
    var w := Crc32(m);
    BitsConcat(m, WordBytes(w));
    RegisterConcat(INITIAL, Bits(m), Bits(WordBytes(w)));
    WordBits(w);
    FeedAll(32, r, w);
    XorZero(Register(r, LowBits(w, 32)));
    InvertedSum(r);
    AllOnes();
  }

  // ---------- the header ----------

  /** EFI_TABLE_HEADER (section 4.2 of UEFI 2.4), the signature in two words. */
  datatype TableHeader = TableHeader(low: bv32, high: bv32, revision: bv32,
                                     headerSize: bv32, crc32: bv32, reserved: bv32) {
    function Encoded(): (m: seq<bv8>)
      ensures |m| == 24
    {
      WordBytes(low) + WordBytes(high) + WordBytes(revision) + WordBytes(headerSize) + WordBytes(crc32)
      + WordBytes(reserved)
    }
  }

  /** Words are stored lowest byte first. */
  lemma LowestFirst()
    ensures WordBytes(0x0403_0201) == [1, 2, 3, 4]
  {
  }

  /** The size is read from its field, and a checksum is stored in its own and nowhere else. */
  lemma FieldsOfHeader(h: TableHeader, rest: seq<bv8>, w: bv32)
    ensures WordAt(h.Encoded() + rest, HEADER_SIZE_AT) == h.headerSize
    ensures WordAt(h.Encoded() + rest, CRC_AT) == h.crc32
    ensures WithCrc(h.Encoded() + rest, w) == h.(crc32 := w).Encoded() + rest
  {
    hide WordBytes, WordOf;
    WordRoundTrip(h.headerSize);
    WordRoundTrip(h.crc32);
    var m := h.Encoded() + rest;
    assert m[12..16] == WordBytes(h.headerSize) && m[16..20] == WordBytes(h.crc32);
    assert m[12] == m[12..16][0] && m[13] == m[12..16][1] && m[14] == m[12..16][2] && m[15] == m[12..16][3];
    assert m[..16] == WordBytes(h.low) + WordBytes(h.high) + WordBytes(h.revision) + WordBytes(h.headerSize);
    assert m[20..] == WordBytes(h.reserved) + rest;
    assert m[16] == m[16..20][0] && m[17] == m[16..20][1] && m[18] == m[16..20][2] && m[19] == m[16..20][3];
  }
}
