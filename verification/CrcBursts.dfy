/**
  * What the checksum is sure to notice: every change that stays inside 32
  * consecutive bits of the message.
  */
module CrcBursts {
  import opened Seqs
  import opened Words
  import opened Crc

  const BURST := 32

  // ---------- the register can be run backwards ----------

  function BackStep(d: bv32): bv32 {
    if d & 0x8000_0000 != 0 then ((d ^ POLYNOMIAL) << 1) ^ 1 else d << 1
  }

  lemma BitStepReversible(c: bv32)
    ensures BackStep(BitStep(c)) == c
  {
  }

  /** Different registers stay different under the same input. */
  lemma {:induction false} SameInputKeepsApart(c: bv32, d: bv32, bits: seq<bool>)
    requires Register(c, bits) == Register(d, bits)
    ensures c == d
    decreases |bits|
  {
    hide BitStep, BackStep, Xor, BitWord;
    if bits != [] {
      var x, y := Xor(c, BitWord(bits[0])), Xor(d, BitWord(bits[0]));
      SameInputKeepsApart(BitStep(x), BitStep(y), bits[1..]);
      BitStepReversible(x);
      BitStepReversible(y);
      XorCancel(c, d, BitWord(bits[0]));
    }
  }

  // ---------- how far apart registers can be that meet again ----------

  predicate Within(a: bv32, m: bv32) {
    a & !m == 0
  }

  predicate TopFree(m: bv32) {
    m & 0x8000_0000 == 0
  }

  function PushOne(m: bv32): bv32 {
    (m << 1) ^ 1
  }

  /** The word with the `k` lowest bits set. */
  function Mask(k: nat): bv32 {
    if k == 0 then 0 else PushOne(Mask(k - 1))
  }

  predicate AtMostLowest(p: bv32) {
    p & !1 == 0
  }

  lemma StepBackwards(x: bv32, y: bv32, m: bv32)
    requires Within(Xor(BitStep(x), BitStep(y)), m) && TopFree(m)
    ensures Within(Xor(x, y), PushOne(m))
  {
  }

  lemma InputIsLowest(c: bv32, d: bv32, p: bv32, q: bv32, m: bv32)
    requires AtMostLowest(p) && AtMostLowest(q) && Within(Xor(Xor(c, p), Xor(d, q)), PushOne(m))
    ensures Within(Xor(c, d), PushOne(m))
  {
  }

  lemma BitWordLowest(bit: bool)
    ensures AtMostLowest(BitWord(bit))
  {
  }

  /** If one step leaves a difference inside the mask, the difference before was inside the next larger mask. */
  lemma MeetStep(c: bv32, d: bv32, p: bool, q: bool, m: bv32)
    requires Within(Xor(BitStep(Xor(c, BitWord(p))), BitStep(Xor(d, BitWord(q)))), m) && TopFree(m)
    ensures Within(Xor(c, d), PushOne(m))
  {
    hide BitStep, BitWord, Within, PushOne, TopFree, Xor, AtMostLowest;
    var a, b := BitWord(p), BitWord(q);
    StepBackwards(Xor(c, a), Xor(d, b), m);
    BitWordLowest(p);
    BitWordLowest(q);
    InputIsLowest(c, d, a, b, m);
  }

  lemma SelfWithin(a: bv32, m: bv32)
    ensures Within(Xor(a, a), m)
  {
  }

  lemma MaskTopFree(k: nat)
    requires k <= 31
    ensures TopFree(Mask(k))
  {
    Mask31();
    MaskGrows(k, 31);
    hide Mask;
  }

  lemma Mask31()
    ensures Mask(31) == 0x7FFF_FFFF
  {
    assert Mask(8) == 0xFF;
    assert Mask(16) == 0xFFFF;
    assert Mask(24) == 0xFF_FFFF;
  }

  lemma {:induction false} MaskGrows(k: nat, n: nat)
    requires k <= n
    ensures Within(Mask(k), Mask(n))
  {
    if k > 0 {
      MaskGrows(k - 1, n - 1);
      hide Within, PushOne;
      PushKeepsWithin(Mask(k - 1), Mask(n - 1));
    }
  }

  lemma PushKeepsWithin(a: bv32, m: bv32)
    requires Within(a, m)
    ensures Within(PushOne(a), PushOne(m))
  {
  }

  /** Registers that become equal after `k` input bits differed only in their `k` lowest bits. */
  lemma {:induction false} MeetingRegisters(c: bv32, d: bv32, u: seq<bool>, v: seq<bool>)
    requires |u| == |v| <= BURST && Register(c, u) == Register(d, v)
    ensures Within(Xor(c, d), Mask(|u|))
    decreases |u|
  {
    hide BitStep, BitWord, Within, PushOne, TopFree, Xor;
    if u == [] {
      SelfWithin(c, Mask(0));
    } else {
      MeetingRegisters(BitStep(Xor(c, BitWord(u[0]))), BitStep(Xor(d, BitWord(v[0]))), u[1..], v[1..]);
      MaskTopFree(|u| - 1);
      MeetStep(c, d, u[0], v[0], Mask(|u| - 1));
    }
  }

  // ---------- bursts ----------

  /** One input bit flips the top bit of the register, among others. */
  lemma FlippedBit(c: bv32, m: bv32)
    requires TopFree(m)
    ensures !Within(Xor(BitStep(Xor(c, BitWord(true))), BitStep(Xor(c, BitWord(false)))), m)
    ensures !Within(Xor(BitStep(Xor(c, BitWord(false))), BitStep(Xor(c, BitWord(true)))), m)
  {
    assert BitWord(true) == 1 && BitWord(false) == 0;
    hide BitStep, Within, Xor, BitWord;
    FlipByOne(c, m);
    XorZero(c);
    XorComm(BitStep(c), BitStep(Xor(c, 1)));
  }

  lemma FlipByOne(c: bv32, m: bv32)
    requires TopFree(m)
    ensures !Within(Xor(BitStep(Xor(c, 1)), BitStep(c)), m)
  {
    assert !Within(POLYNOMIAL, m);
    assert BitWord(true) == 1;
    BitStepForm(c);
    BitStepForm(Xor(c, 1));
    hide BitStep, Within, Xor, Half, Odd, BitWord;
    BitWordParts(true);
    HalfXor(c, 1);
    OddXor(c, 1);
    XorZero(Half(c));
    XorSelf(Half(c), POLYNOMIAL);
  }

  /** Two different inputs of up to 32 bits that start differently lead to different registers. */
  lemma FirstBitsDiffer(c: bv32, u: seq<bool>, v: seq<bool>)
    requires 0 < |u| == |v| <= BURST && u[0] != v[0]
    ensures Register(c, u) != Register(c, v)
  {
    hide BitStep, BitWord, Within, TopFree, Xor, Mask;
    MaskTopFree(|u| - 1);
    FlippedBit(c, Mask(|u| - 1));
    var x, y := BitStep(Xor(c, BitWord(u[0]))), BitStep(Xor(c, BitWord(v[0])));
    if Register(x, u[1..]) == Register(y, v[1..]) {
      MeetingRegisters(x, y, u[1..], v[1..]);
      assert false;
    }
  }

  /** The two bit strings agree outside 32 consecutive positions. */
  ghost predicate Burst(s: seq<bool>, t: seq<bool>, at: nat) {
    |s| == |t| && forall i :: 0 <= i < |s| && !(at <= i < at + BURST) ==> s[i] == t[i]
  }

  lemma {:induction false} BurstChangesRegister(c: bv32, s: seq<bool>, t: seq<bool>, at: nat)
    requires Burst(s, t, at) && s != t
    ensures Register(c, s) != Register(c, t)
    decreases |s|
  {
    hide BitStep, BitWord, Xor;
    if s[0] == t[0] {
      HeadTail(s);
      HeadTail(t);
      BurstChangesRegister(BitStep(Xor(c, BitWord(s[0]))), s[1..], t[1..], if at == 0 then 0 else at - 1);
    } else {
      var k := if |s| <= BURST then |s| else BURST;
      SplitAt(c, s, k);
      SplitAt(c, t, k);
      assert s[k..] == t[k..];
      FirstBitsDiffer(c, s[..k], t[..k]);
      if Register(c, s) == Register(c, t) {
        SameInputKeepsApart(Register(c, s[..k]), Register(c, t[..k]), s[k..]);
        assert false;
      }
    }
  }

  lemma SplitAt(c: bv32, s: seq<bool>, k: nat)
    requires k <= |s|
    ensures Register(c, s) == Register(Register(c, s[..k]), s[k..])
  {
    assert s == s[..k] + s[k..];
    RegisterConcat(c, s[..k], s[k..]);
  }

  /**
    * Every change of a message that stays inside 32 consecutive bits changes its
    * checksum.
    */
  lemma DetectsBurst(a: seq<bv8>, b: seq<bv8>, at: nat)
    requires Burst(Bits(a), Bits(b), at) && a != b
    ensures Crc32(a) != Crc32(b)
  {
    BitsInjective(a, b);
    BurstChangesRegister(INITIAL, Bits(a), Bits(b), at);
    hide Register, Bits, Xor;
    XorCancel(Register(INITIAL, Bits(a)), Register(INITIAL, Bits(b)), INITIAL);
  }

  // ---------- bytes ----------

  lemma ByteBitsInjective(x: bv8, y: bv8)
    requires ByteBits(x) == ByteBits(y)
    ensures x == y
  {
    HighPart8(x as bv32);
    HighPart8(y as bv32);
    assert (x as bv32) >> 8 == 0 && (y as bv32) >> 8 == 0;
    WordFromBits(x as bv32, y as bv32, 8);
  }

  lemma {:induction false} BitsInjective(a: seq<bv8>, b: seq<bv8>)
    ensures Bits(a) == Bits(b) ==> a == b
  {
    hide ByteBits;
    if |a| == |b| && a != [] && Bits(a) == Bits(b) {
      ConcatParts(ByteBits(a[0]), Bits(a[1..]));
      ConcatParts(ByteBits(b[0]), Bits(b[1..]));
      ByteBitsInjective(a[0], b[0]);
      BitsInjective(a[1..], b[1..]);
      HeadTail(a);
      HeadTail(b);
    }
  }

  lemma {:induction false} BitOfByte(a: seq<bv8>, i: nat)
    requires i < 8 * |a|
    ensures Bits(a)[i] == ByteBits(a[i / 8])[i % 8]
  {
    hide ByteBits;
    if i >= 8 {
      BitOfByte(a[1..], i - 8);
    }
  }

  /** Messages that agree outside four consecutive bytes agree outside 32 consecutive bits. */
  lemma FourBytesAreBurst(a: seq<bv8>, b: seq<bv8>, at: nat)
    requires |a| == |b| && forall i :: 0 <= i < |a| && !(at <= i < at + 4) ==> a[i] == b[i]
    ensures Burst(Bits(a), Bits(b), 8 * at)
  {
    forall i | 0 <= i < 8 * |a| && !(8 * at <= i < 8 * at + BURST) ensures Bits(a)[i] == Bits(b)[i] {
      BitOfByte(a, i);
      BitOfByte(b, i);
      assert a[i / 8] == b[i / 8];
    }
  }
}
