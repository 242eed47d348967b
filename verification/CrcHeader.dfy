/**
  * The checksum of a table header: computed with the CRC field cleared, stored
  * in the header, and checked without leaving a trace.
  */
module CrcHeader {
  import opened Words
  import opened Crc
  import opened CrcBursts

  /** Offsets of EFI_TABLE_HEADER. */
  const HEADER_SIZE_AT := 12
  const CRC_AT := 16
  const CRC_END := 20

  function WordOf(b0: bv8, b1: bv8, b2: bv8, b3: bv8): bv32 {
    (b0 as bv32) | ((b1 as bv32) << 8) | ((b2 as bv32) << 16) | ((b3 as bv32) << 24)
  }

  /** A little-endian word in memory. */
  function WordAt(m: seq<bv8>, at: nat): bv32
    requires at + 4 <= |m|
  {
    WordOf(m[at], m[at + 1], m[at + 2], m[at + 3])
  }

  function WordBytes(w: bv32): (b: seq<bv8>)
    ensures |b| == 4
  {
    [(w & 0xFF) as bv8, ((w >> 8) & 0xFF) as bv8, ((w >> 16) & 0xFF) as bv8, ((w >> 24) & 0xFF) as bv8]
  }

  /** The header with `w` in its CRC field. */
  function WithCrc(m: seq<bv8>, w: bv32): (r: seq<bv8>)
    requires CRC_END <= |m|
    ensures |r| == |m|
  {
    m[..CRC_AT] + WordBytes(w) + m[CRC_END..]
  }

  lemma WordRoundTrip(w: bv32)
    ensures var b := WordBytes(w); WordOf(b[0], b[1], b[2], b[3]) == w
  {
  }

  lemma BytesOfWord(b0: bv8, b1: bv8, b2: bv8, b3: bv8)
    ensures WordBytes(WordOf(b0, b1, b2, b3)) == [b0, b1, b2, b3]
  {
  }

  lemma CrcFieldReads(m: seq<bv8>, w: bv32)
    requires CRC_END <= |m|
    ensures WordAt(WithCrc(m, w), CRC_AT) == w
  {
    hide WordBytes, WordOf;
    WordRoundTrip(w);
  }

  /** Writing back the word that was there restores the header. */
  lemma CrcFieldRestores(m: seq<bv8>)
    requires CRC_END <= |m|
    ensures WithCrc(m, WordAt(m, CRC_AT)) == m
  {
    hide WordBytes, WordOf;
    BytesOfWord(m[16], m[17], m[18], m[19]);
    assert m[CRC_AT..CRC_END] == [m[16], m[17], m[18], m[19]];
  }

  /** The checksum of the first `size` bytes, taken with the CRC field cleared. */
  function HeaderCrc(m: seq<bv8>, size: nat): bv32
    requires CRC_END <= |m| && size <= |m|
  {
    Crc32(WithCrc(m, 0)[..size])
  }

  predicate SizeAccepted(maxSize: nat, size: nat) {
    size != 0 && (maxSize == 0 || size <= maxSize)
  }

  /** What the check answers. */
  predicate Checks(m: seq<bv8>, maxSize: nat, size: nat)
    requires CRC_END <= |m| && (SizeAccepted(maxSize, size) ==> size <= |m|)
  {
    SizeAccepted(maxSize, size) && WordAt(m, CRC_AT) == HeaderCrc(m, size)
  }

  // ---------- the routines ----------

  /** The table-driven loop; the 64-bit accumulator never leaves 32 bits. */
  method CalculateCrc(pt: array<bv8>, size: nat) returns (crc: bv32)
    requires size <= pt.Length
    ensures crc == Crc32(pt[..size])
  {
    var acc: bv64 := 0xFFFF_FFFF;
    var i := 0;
    ghost var reg := INITIAL;
    assert acc == reg as bv64;
    assert pt[..0] == [];
    hide Register, Bits, TableStep, WideStep, Xor, CRCTable;
    assert reg == Register(INITIAL, Bits([])) by { NoBytes(); }
    while i < size
      invariant 0 <= i <= size
      invariant reg == Register(INITIAL, Bits(pt[..i])) && acc == reg as bv64
    {
      WideStepIsTableStep(reg, pt[i]);
      NextByte(reg, pt[i], pt[..i]);
      assert pt[..i + 1] == pt[..i] + [pt[i]];
      acc := WideStep(acc, pt[i]);
      reg := TableStep(reg, pt[i]);
      i := i + 1;
    }
    crc := Narrow(acc);
    NarrowIsFinal(reg);
  }

  function WideLowest(acc: bv64): bv8 {
    (acc & 0xFF) as bv8
  }

  function WideCombine(acc: bv64, entry: bv32): bv64 {
    (acc >> 8) ^ (entry as bv64)
  }

  /** One turn of the loop on the 64-bit accumulator. */
  function WideStep(acc: bv64, b: bv8): bv64 {
    WideCombine(acc, CRCTable(Mix(WideLowest(acc), b)))
  }

  /** The final inversion and the cast to 32 bits. */
  function Narrow(acc: bv64): bv32 {
    ((acc ^ 0xFFFF_FFFF) & 0xFFFF_FFFF) as bv32
  }

  lemma WideStepIsTableStep(reg: bv32, b: bv8)
    ensures WideStep(reg as bv64, b) == TableStep(reg, b) as bv64
  {
    hide CRCTable, Mix, Lowest, Combine, WideLowest, WideCombine;
    SameLowest(reg);
    SameCombine(reg, CRCTable(Mix(Lowest(reg), b)));
  }

  lemma SameLowest(reg: bv32)
    ensures WideLowest(reg as bv64) == Lowest(reg)
  {
  }

  lemma SameCombine(reg: bv32, entry: bv32)
    ensures WideCombine(reg as bv64, entry) == Combine(reg, entry) as bv64
  {
  }

  lemma NarrowIsFinal(reg: bv32)
    ensures Narrow(reg as bv64) == Xor(reg, INITIAL)
  {
  }

  lemma NoBytes()
    ensures Register(INITIAL, Bits([])) == INITIAL
  {
  }

  lemma NextByte(reg: bv32, b: bv8, before: seq<bv8>)
    requires reg == Register(INITIAL, Bits(before))
    ensures TableStep(reg, b) == Register(INITIAL, Bits(before + [b]))
  {
    hide TableStep, Register, CRCTable, ByteBits, Xor;
    TableStepIsBitwise(reg, b);
    BitsConcat(before, [b]);
    OneByte(b);
    RegisterConcat(INITIAL, Bits(before), ByteBits(b));
  }

  lemma OneByte(b: bv8)
    ensures Bits([b]) == ByteBits(b)
  {
    hide ByteBits;
    assert Bits([b]) == ByteBits(b) + Bits([]);
  }

  method PutCrc(hdr: array<bv8>, w: bv32)
    requires CRC_END <= hdr.Length
    modifies hdr
    ensures hdr[..] == WithCrc(old(hdr[..]), w)
  {
    hdr[16] := (w & 0xFF) as bv8;
    hdr[17] := ((w >> 8) & 0xFF) as bv8;
    hdr[18] := ((w >> 16) & 0xFF) as bv8;
    hdr[19] := ((w >> 24) & 0xFF) as bv8;
  }

  method SetCrcAltSize(size: nat, hdr: array<bv8>)
    requires CRC_END <= hdr.Length && size <= hdr.Length
    modifies hdr
    ensures hdr[..] == WithCrc(old(hdr[..]), HeaderCrc(old(hdr[..]), size))
  {
    hide Crc32, WordBytes;
    PutCrc(hdr, 0);
    assert hdr[..size] == hdr[..][..size];
    var crc := CalculateCrc(hdr, size);
    PutCrc(hdr, crc);
    Overwritten(old(hdr[..]), 0, crc);
  }

  lemma Overwritten(m: seq<bv8>, v: bv32, w: bv32)
    requires CRC_END <= |m|
    ensures WithCrc(WithCrc(m, v), w) == WithCrc(m, w)
  {
    hide WordBytes;
  }

  method SetCrc(hdr: array<bv8>)
    requires CRC_END <= hdr.Length && WordAt(hdr[..], HEADER_SIZE_AT) as int <= hdr.Length
    modifies hdr
    ensures var size := WordAt(old(hdr[..]), HEADER_SIZE_AT) as int;
      hdr[..] == WithCrc(old(hdr[..]), HeaderCrc(old(hdr[..]), size))
  {
    SetCrcAltSize(WordAt(hdr[..], HEADER_SIZE_AT) as int, hdr);
  }

  method CheckCrcAltSize(maxSize: nat, size: nat, hdr: array<bv8>) returns (ok: bool)
    requires CRC_END <= hdr.Length && (SizeAccepted(maxSize, size) ==> size <= hdr.Length)
    modifies hdr
    ensures hdr[..] == old(hdr[..])
    ensures ok == Checks(hdr[..], maxSize, size)
  {
    if size == 0 {
      return false;
    }
    if maxSize != 0 && size > maxSize {
      return false;
    }
    hide Crc32, WordBytes, WordAt;
    var orgCrc := WordAt(hdr[..], CRC_AT);
    PutCrc(hdr, 0);
    assert hdr[..size] == hdr[..][..size];
    var crc := CalculateCrc(hdr, size);
    PutCrc(hdr, orgCrc);
    Overwritten(old(hdr[..]), 0, orgCrc);
    CrcFieldRestores(old(hdr[..]));
    ok := orgCrc == crc;
  }

  method CheckCrc(maxSize: nat, hdr: array<bv8>) returns (ok: bool)
    requires CRC_END <= hdr.Length
    requires var size := WordAt(hdr[..], HEADER_SIZE_AT) as int; SizeAccepted(maxSize, size) ==> size <= hdr.Length
    modifies hdr
    ensures hdr[..] == old(hdr[..])
    ensures ok == Checks(hdr[..], maxSize, WordAt(hdr[..], HEADER_SIZE_AT) as int)
  {
    ok := CheckCrcAltSize(maxSize, WordAt(hdr[..], HEADER_SIZE_AT) as int, hdr);
  }

  // ---------- what the check is worth ----------

  /** A header whose checksum was just set passes the check exactly when its size is accepted. */
  lemma SetThenCheck(m: seq<bv8>, maxSize: nat, size: nat)
    requires CRC_END <= |m| && size <= |m|
    ensures Checks(WithCrc(m, HeaderCrc(m, size)), maxSize, size) <==> 0 < size && (maxSize == 0 || size <= maxSize)
  {
    hide Crc32, WordBytes, WordAt;
    var w := HeaderCrc(m, size);
    CrcFieldReads(m, w);
    Overwritten(m, w, 0);
  }

  /** The part of the header that the checksum covers. */
  function Covered(m: seq<bv8>, size: nat): seq<bv8>
    requires CRC_END <= |m| && size <= |m|
  {
    WithCrc(m, 0)[..size]
  }

  /**
    * From a header that passes, any change of the covered part that stays inside
    * 32 consecutive bits and leaves the CRC field alone gives one that fails.
    */
  lemma TamperingDetected(m: seq<bv8>, n: seq<bv8>, maxSize: nat, size: nat, at: nat)
    requires CRC_END <= |m| == |n| && size <= |m| && Checks(m, maxSize, size)
    requires WordAt(n, CRC_AT) == WordAt(m, CRC_AT)
    requires Burst(Bits(Covered(m, size)), Bits(Covered(n, size)), at) && Covered(m, size) != Covered(n, size)
    ensures !Checks(n, maxSize, size)
  {
    DetectsBurst(Covered(m, size), Covered(n, size), at);
    hide Crc32, WordBytes, WordAt, Bits, Burst;
  }

  /** In bytes: a change inside four consecutive bytes that do not touch the CRC field. */
  lemma ByteTamperingDetected(m: seq<bv8>, n: seq<bv8>, maxSize: nat, size: nat, at: nat)
    requires CRC_END <= |m| == |n| && size <= |m| && Checks(m, maxSize, size)
    requires at + 4 <= CRC_AT || CRC_END <= at
    requires forall i :: 0 <= i < |m| && !(at <= i < at + 4) ==> m[i] == n[i]
    requires m[..size] != n[..size]
    ensures !Checks(n, maxSize, size)
  {
    hide Checks, WordBytes, Bits, Crc32;
    var a, b := Covered(m, size), Covered(n, size);
    assert WordAt(n, CRC_AT) == WordAt(m, CRC_AT);
    forall i | 0 <= i < size ensures a[i] == if CRC_AT <= i < CRC_END then WordBytes(0)[i - CRC_AT] else m[i] {}
    forall i | 0 <= i < size ensures b[i] == if CRC_AT <= i < CRC_END then WordBytes(0)[i - CRC_AT] else n[i] {}
    FourBytesAreBurst(a, b, at);
    var k :| 0 <= k < size && m[..size][k] != n[..size][k];
    assert a[k] != b[k];
    TamperingDetected(m, n, maxSize, size, 8 * at);
  }

  /** A change of the CRC field alone is always noticed. */
  lemma FieldTamperingDetected(m: seq<bv8>, w: bv32, maxSize: nat, size: nat)
    requires CRC_END <= |m| && size <= |m| && Checks(m, maxSize, size) && w != WordAt(m, CRC_AT)
    ensures !Checks(WithCrc(m, w), maxSize, size)
  {
    hide Crc32, WordBytes, WordAt;
    CrcFieldReads(m, w);
    Overwritten(m, w, 0);
  }
}
