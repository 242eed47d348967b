/**
  * Division of a 64-bit by a 32-bit number on a 32-bit machine: 64 rounds of
  * shift, compare and subtract over three 32-bit words.
  */
module Division {
  import opened Arith
  import opened Machine

  const TOP := 0x8000_0000

  type word = x: int | 0 <= x < TWO32

  /** The dividend in two words, and the remainder so far. */
  datatype Registers = Registers(lo: word, hi: word, rem: word) {
    function Dividend(): (v: nat)
      ensures v < TWO64
    {
      hi * TWO32 + lo
    }
  }

  /**
    * One round: the three words are shifted left as one, the carry out of the
    * remainder is lost, and the divisor is subtracted when it fits.
    */
  function Round(s: Registers, d: word): (r: Registers) {
    var lo := (2 * s.lo) % TWO32;
    var hi := (2 * s.hi + Carry(s.lo)) % TWO32;
    var rem := (2 * s.rem + Carry(s.hi)) % TWO32;
    if rem >= d then Registers((lo + 1) % TWO32, hi, rem - d) else Registers(lo, hi, rem)
  }

  /** The bit that a left shift pushes out. */
  function Carry(w: word): (c: int)
    ensures 0 <= c <= 1 && 2 * w == c * TWO32 + (2 * w) % TWO32
  {
    if w >= TOP then 1 else 0
  }

  function Rounds(k: nat, s: Registers, d: word): Registers {
    if k == 0 then s else Round(Rounds(k - 1, s, d), d)
  }

  function Load(dividend: nat): Registers
    requires dividend < TWO64
  {
    Registers(dividend % TWO32, dividend / TWO32, 0)
  }

  /** The loop of the routine: quotient and remainder are left in the registers. */
  method DivU64x32(dividend: nat, divisor: word) returns (quotient: nat, remainder: nat)
    requires dividend < TWO64
    ensures quotient == Rounds(64, Load(dividend), divisor).Dividend()
    ensures remainder == Rounds(64, Load(dividend), divisor).rem
    ensures 0 < divisor < TOP ==> quotient == dividend / divisor && remainder == dividend % divisor
  {
    var s := Load(dividend);
    for bit := 0 to 64
      invariant s == Rounds(bit, Load(dividend), divisor)
    {
      s := Round(s, divisor);
    }
    quotient, remainder := s.Dividend(), s.rem;
    if 0 < divisor < TOP {
      DividesCorrectly(dividend, divisor);
    }
  }

  // ---------- when it divides ----------

  /** The round on the combined dividend. */
  lemma RoundCombined(s: Registers, d: word)
    requires d > 0 && s.rem < d <= TOP
    ensures var b, v, r := Carry(s.hi), s.Dividend(), Round(s, d);
      && 2 * v >= b * TWO64 && 2 * v - b * TWO64 < TWO64
      && var rem := 2 * s.rem + b;
      && r.Dividend() == 2 * v - b * TWO64 + (if rem >= d then 1 else 0)
      && r.rem == (if rem >= d then rem - d else rem) < d
  {
    ShiftOut(s.lo, 0);
    ShiftOut(s.hi, Carry(s.lo));
    ShiftOut(s.rem, Carry(s.hi));
    assert Carry(s.rem) == 0;
    hide Carry;
  }

  /** A left shift that takes in a bit, without the bit that it pushes out. */
  lemma ShiftOut(w: word, c: int)
    requires 0 <= c <= 1
    ensures (2 * w + c) % TWO32 == 2 * w + c - Carry(w) * TWO32
    ensures c == 0 ==> ((2 * w) % TWO32 + 1) % TWO32 == (2 * w) % TWO32 + 1
  {
  }

  /**
    * After `k` rounds the top `k` bits `n` of the dividend have been divided;
    * the other bits stand above the quotient digits `q`.
    */
  ghost predicate Divided(dividend: nat, d: word, k: nat, s: Registers, n: nat, low: nat, q: nat)
    requires k <= 64
  {
    && dividend == n * Pow2(64 - k) + low && low < Pow2(64 - k)
    && s.Dividend() == low * Pow2(k) + q && q < Pow2(k)
    && n == q * d + s.rem && s.rem < d
  }

  lemma {:induction false} PowersFill(k: nat)
    requires k <= 64
    ensures Pow2(k) * Pow2(64 - k) == TWO64
  {
    if k == 0 {
      Pow2Values();
    } else {
      PowersFill(k - 1);
      assert Pow2(64 - (k - 1)) == 2 * Pow2(64 - k);
      Rebalance(Pow2(k - 1), Pow2(64 - k));
    }
  }

  lemma Rebalance(a: nat, b: nat)
    ensures (2 * a) * b == a * (2 * b)
  {
  }

  /** The bit pushed out is the top bit of the part that is not yet divided. */
  lemma TopBit(v: nat, low: nat, p: nat, h: nat, q: nat, b: int)
    requires v == low * p + q && q < p && p * (2 * h) == TWO64 && low < 2 * h
    requires 0 <= b <= 1 && 0 <= 2 * v - b * TWO64 < TWO64
    ensures b == 1 <==> low >= h
    ensures 2 * v - b * TWO64 == (low - b * h) * (2 * p) + 2 * q
  {
    var lp, hp := low * p, h * p;
    assert p * (2 * h) == 2 * hp;
    if low >= h {
      Ordered(h, low, p);
    } else {
      Ordered(low + 1, h, p);
      assert (low + 1) * p == lp + p;
    }
    Distribute(low, b, h, p);
  }

  lemma Ordered(a: nat, b: nat, p: nat)
    requires a <= b
    ensures a * p <= b * p
  {
  }

  lemma Distribute(low: nat, b: int, h: nat, p: nat)
    ensures (low - b * h) * (2 * p) == 2 * (low * p) - b * (2 * (h * p))
  {
    assert (low - b * h) * (2 * p) == low * (2 * p) - (b * h) * (2 * p);
  }

  lemma DividedStep(dividend: nat, d: word, k: nat, s: Registers, n: nat, low: nat, q: nat)
    returns (n': nat, low': nat, q': nat)
    requires k < 64 && 0 < d <= TOP && Divided(dividend, d, k, s, n, low, q)
    ensures Divided(dividend, d, k + 1, Round(s, d), n', low', q')
  {
    hide Carry, Round, Registers.Dividend;
    var p, h := Pow2(k), Pow2(63 - k);
    var b, rem := Carry(s.hi), 2 * s.rem + Carry(s.hi);
    var g := if rem >= d then 1 else 0;
    assert Pow2(64 - k) == 2 * h && Pow2(k + 1) == 2 * p;
    PowersFill(k);
    RoundCombined(s, d);
    TopBit(s.Dividend(), low, p, h, q, b);
    n', low', q' := 2 * n + b, low - b * h, 2 * q + g;
    hide *;
    assert n' * h + low' == n * (2 * h) + low by { Regroup(n, h, b, low); }
    assert q' * d + (rem - g * d) == 2 * (q * d) + rem by { RegroupQuotient(q, g, d, rem); }
  }

  lemma Regroup(n: nat, h: nat, b: int, low: int)
    ensures (2 * n + b) * h + (low - b * h) == n * (2 * h) + low
  {
  }

  lemma RegroupQuotient(q: nat, g: int, d: nat, rem: int)
    ensures (2 * q + g) * d + (rem - g * d) == 2 * (q * d) + rem
  {
  }

  lemma {:induction false} DividedAfter(dividend: nat, d: word, k: nat) returns (n: nat, low: nat, q: nat)
    requires dividend < TWO64 && 0 < d <= TOP && k <= 64
    ensures Divided(dividend, d, k, Rounds(k, Load(dividend), d), n, low, q)
  {
    if k == 0 {
      Pow2Values();
      n, low, q := 0, dividend, 0;
    } else {
      n, low, q := DividedAfter(dividend, d, k - 1);
      n, low, q := DividedStep(dividend, d, k - 1, Rounds(k - 1, Load(dividend), d), n, low, q);
    }
  }

  /** For every divisor up to 2^31 the rounds compute the quotient and the remainder. */
  lemma DividesCorrectly(dividend: nat, d: word)
    requires dividend < TWO64 && 0 < d <= TOP
    ensures var r := Rounds(64, Load(dividend), d); r.Dividend() == dividend / d && r.rem == dividend % d
  {
    var n, low, q := DividedAfter(dividend, d, 64);
    var r := Rounds(64, Load(dividend), d);
    AllDivided(dividend, d, r, n, low, q);
    ModUnique(dividend, q, r.rem, d);
  }

  lemma AllDivided(dividend: nat, d: word, s: Registers, n: nat, low: nat, q: nat)
    requires Divided(dividend, d, 64, s, n, low, q)
    ensures s.Dividend() == q && dividend == q * d + s.rem && s.rem < d
  {
    assert Pow2(0) == 1;
    hide Pow2;
    assert low == 0;
  }

  // ---------- when it does not ----------

  lemma {:induction false} ShiftedIntoRem(k: nat, d: word)
    requires k <= 31 && d > TOP
    ensures Pow2(k) <= TOP && Rounds(32 + k, Registers(0, 1, 0), d) == Registers(0, 0, Pow2(k))
  {
    Small(k);
    if k == 0 {
      ShiftedThrough(31, d);
      Pow2Values();
    } else {
      ShiftedIntoRem(k - 1, d);
    }
  }

  lemma Small(k: nat)
    requires k <= 31
    ensures Pow2(k) <= TOP
  {
    Pow2Values();
    Pow2Grows(k, 31);
  }

  lemma {:induction false} ShiftedThrough(k: nat, d: word)
    requires k <= 31 && d > TOP
    ensures Pow2(k) <= TOP && Rounds(k, Registers(0, 1, 0), d) == Registers(0, Pow2(k), 0)
  {
    Small(k);
    if k > 0 {
      ShiftedThrough(k - 1, d);
    }
  }

  /** A divisor above 2^31 loses a carry: dividing 2^32 gives zero, remainder zero. */
  lemma CarryLost(d: word)
    requires d > TOP
    ensures Rounds(64, Load(TWO32), d) == Registers(0, 0, 0)
  {
    Pow2Values();
    ShiftedIntoRem(31, d);
  }

  /** The exact condition: the routine divides every dividend if and only if the divisor is at most 2^31. */
  lemma DividesExactlyUpTo31Bits(d: word)
    requires d > 0
    ensures (forall x: nat | x < TWO64 :: var r := Rounds(64, Load(x), d); r.Dividend() == x / d && r.rem == x % d)
            <==> d <= TOP
  {
    if d <= TOP {
      forall x: nat | x < TWO64 ensures var r := Rounds(64, Load(x), d); r.Dividend() == x / d && r.rem == x % d {
        DividesCorrectly(x, d);
      }
    } else {
      CarryLost(d);
      ModUnique(TWO32, 1, TWO32 - d, d);
    }
  }
}
