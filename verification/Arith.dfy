/** Division with remainder, as the loops of the library need it. */
module Arith {

  lemma {:induction false} ModOfMultiple(q: nat, align: nat)
    requires align > 0
    ensures (q * align) % align == 0
  {
    if q > 0 {
      ModOfMultiple(q - 1, align);
      assert q * align == (q - 1) * align + align;
      ModAdd((q - 1) * align, align, align);
    }
  }

  /** Adding to a multiple does not change the remainder. */
  lemma ModAdd(s: nat, len: nat, align: nat)
    requires align > 0 && s % align == 0
    ensures (s + len) % align == len % align
  {
    var q, p := s / align, len / align;
    assert s + len == (q + p) * align + len % align;
    ModUnique(s + len, q + p, len % align, align);
  }

  lemma ModUnique(x: nat, q: nat, r: nat, align: nat)
    requires align > 0 && r < align && x == q * align + r
    ensures x % align == r && x / align == q
  {
    QuotientUnique(align, q, r, x / align, x % align);
  }

  /** Between a multiple and the next there is no other. */
  lemma NextMultiple(r: nat, t: nat, align: nat)
    requires align > 0 && r % align == 0 && t % align == 0 && t <= r < t + align
    ensures r == t
  {
    var a, b := r / align, t / align;
    assert r == a * align && t == b * align;
    if a > b {
      Gap(align, a, b);
    } else if a < b {
      Gap(align, b, a);
    }
  }

  lemma QuotientUnique(align: nat, q: nat, r: nat, q': nat, r': nat)
    requires r < align && r' < align && q * align + r == q' * align + r'
    ensures q == q' && r == r'
  {
    if q > q' {
      Gap(align, q, q');
    } else if q' > q {
      Gap(align, q', q);
    }
  }

  lemma Gap(align: nat, q: nat, q': nat)
    requires q > q'
    ensures q * align >= q' * align + align
  {
    assert (q - q' - 1) * align >= 0;
    assert q * align == q' * align + align + (q - q' - 1) * align;
  }

  function Pow2(k: nat): (p: nat)
    ensures p > 0
  {
    if k == 0 then 1 else 2 * Pow2(k - 1)
  }

  lemma {:induction false} Pow2Grows(k: nat, n: nat)
    requires k <= n
    ensures Pow2(k) <= Pow2(n)
    decreases n - k
  {
    if k < n {
      Pow2Grows(k, n - 1);
    }
  }

  lemma Pow2Values()
    ensures Pow2(31) == 0x8000_0000
    ensures Pow2(64) == 0x1_0000_0000_0000_0000
  {
    assert Pow2(10) == 1024;
    assert Pow2(20) == 0x10_0000;
    assert Pow2(31) == 0x8000_0000;
    assert Pow2(42) == 0x400_0000_0000;
    assert Pow2(53) == 0x20_0000_0000_0000;
  }
}
