/**
  * 32-bit words as vectors over the two-element field: the few laws of exclusive
  * or, masking and shifting from which everything about the checksum follows.
  */
module Words {

  function Xor(a: bv32, b: bv32): bv32 {
    a ^ b
  }

  function And(a: bv32, b: bv32): bv32 {
    a & b
  }

  function Half(a: bv32): bv32 {
    a >> 1
  }

  predicate Odd(a: bv32) {
    a & 1 == 1
  }

  function BitWord(bit: bool): bv32 {
    if bit then 1 else 0
  }

  lemma XorZero(a: bv32)
    ensures Xor(a, 0) == a && Xor(0, a) == a
  {
  }

  lemma XorComm(a: bv32, b: bv32)
    ensures Xor(a, b) == Xor(b, a)
  {
  }

  lemma XorSwap(a: bv32, b: bv32, c: bv32)
    ensures Xor(Xor(a, b), c) == Xor(Xor(a, c), b)
  {
    XorSwapped(a, b, c);
  }

  lemma XorSwapped(a: bv32, b: bv32, c: bv32)
    ensures Xor(a ^ b, c) == Xor(a ^ c, b)
  {
  }

  lemma XorSelf(a: bv32, b: bv32)
    ensures Xor(Xor(a, b), a) == b && Xor(a, Xor(a, b)) == b
  {
  }

  lemma XorCancel(a: bv32, b: bv32, c: bv32)
    ensures Xor(a, c) == Xor(b, c) ==> a == b
  {
    assert (a ^ c) ^ c == a && (b ^ c) ^ c == b;
  }

  lemma HalfXor(a: bv32, b: bv32)
    ensures Half(Xor(a, b)) == Xor(Half(a), Half(b))
  {
  }

  lemma OddXor(a: bv32, b: bv32)
    ensures Odd(Xor(a, b)) <==> Odd(a) != Odd(b)
  {
  }

  lemma HalfAnd(a: bv32, b: bv32)
    ensures Half(And(a, b)) == And(Half(a), Half(b))
  {
  }

  lemma OddAnd(a: bv32, b: bv32)
    ensures Odd(And(a, b)) <==> Odd(a) && Odd(b)
  {
  }

  lemma BitWordParts(bit: bool)
    ensures Odd(BitWord(bit)) == bit && Half(BitWord(bit)) == 0
  {
  }

  // ---------- bits of a word ----------

  /** The `k` lowest bits, lowest first. */
  function LowBits(w: bv32, k: nat): (bits: seq<bool>)
    ensures |bits| == k
    decreases k
  {
    if k == 0 then [] else [Odd(w)] + LowBits(Half(w), k - 1)
  }

  /** The word without its `k` lowest bits. */
  function HighPart(w: bv32, k: nat): bv32
    decreases k
  {
    if k == 0 then w else HighPart(Half(w), k - 1)
  }

  lemma HighPart8(w: bv32)
    ensures HighPart(w, 8) == w >> 8
  {
    assert HighPart(w, 8) == HighPart(Half(Half(w)), 6) == HighPart(Half(Half(Half(Half(w)))), 4);
    assert HighPart(Half(Half(Half(Half(w)))), 4) == HighPart(Half(Half(Half(Half(Half(Half(w)))))), 2);
  }

  /** The `k` lowest bits of the mask are set. */
  predicate Ones(m: bv32, k: nat)
    decreases k
  {
    k == 0 || (Odd(m) && Ones(Half(m), k - 1))
  }

  /** Words that agree under a mask agree in the bits below it. */
  lemma {:induction false} SameLowBits(x: bv32, y: bv32, m: bv32, k: nat)
    requires And(x, m) == And(y, m) && Ones(m, k)
    ensures LowBits(x, k) == LowBits(y, k)
    decreases k
  {
    hide And, Half, Odd;
    if k > 0 {
      OddAnd(x, m);
      OddAnd(y, m);
      HalfAnd(x, m);
      HalfAnd(y, m);
      SameLowBits(Half(x), Half(y), Half(m), k - 1);
    }
  }

  lemma ByteMask()
    ensures Ones(0xFF, 8)
  {
    assert Half(0xFF) == 0x7F && Half(0x7F) == 0x3F && Half(0x3F) == 0x1F && Half(0x1F) == 0x0F;
    assert Ones(0x0F, 4);
    assert Ones(0xFF, 8) == Ones(0x3F, 6) == Ones(0x0F, 4);
  }

  /** A word has the low bits of its lowest byte. */
  lemma LowByte(x: bv32, y: bv32)
    requires x & 0xFF == y & 0xFF
    ensures LowBits(x, 8) == LowBits(y, 8)
  {
    ByteMask();
    SameLowBits(x, y, 0xFF, 8);
  }

  lemma HalfAndOdd(x: bv32, y: bv32)
    requires Half(x) == Half(y) && Odd(x) == Odd(y)
    ensures x == y
  {
  }

  /** A word is its low bits and the rest. */
  lemma {:induction false} WordFromBits(x: bv32, y: bv32, k: nat)
    requires LowBits(x, k) == LowBits(y, k) && HighPart(x, k) == HighPart(y, k)
    ensures x == y
    decreases k
  {
    hide Half, Odd;
    if k > 0 {
      assert LowBits(x, k)[0] == Odd(x) && LowBits(y, k)[0] == Odd(y);
      assert LowBits(x, k)[1..] == LowBits(Half(x), k - 1) && LowBits(y, k)[1..] == LowBits(Half(y), k - 1);
      WordFromBits(Half(x), Half(y), k - 1);
      HalfAndOdd(x, y);
    }
  }
}
