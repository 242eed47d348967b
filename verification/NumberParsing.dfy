/** The parsers of the string library, and the round trips with the printers. */
module NumberParsing {
  import opened Machine
  import opened Arith
  import opened Strings
  import opened Numbers

  // ---------- what a parser reads ----------

  /** The value of a character as a digit, or -1. */
  function DigitValue(c: wchar, base: nat): (d: int)
    requires base == 10 || base == 16
    ensures -1 <= d < base
  {
    if 0x30 <= c <= 0x39 then c - 0x30
    else if base == 16 && 0x41 <= c <= 0x46 then c - 0x41 + 10
    else if base == 16 && 0x61 <= c <= 0x66 then c - 0x61 + 10
    else -1
  }

  /** Where the spaces end. */
  function SkipSpaces(s: seq<wchar>): (i: nat)
    ensures i <= |s|
    ensures forall k :: 0 <= k < i ==> s[k] == SPACE
    ensures i < |s| ==> s[i] != SPACE
  {
    if s == [] || s[0] != SPACE then 0 else 1 + SkipSpaces(s[1..])
  }

  /** The longest run of digits at the start of `s`. */
  function DigitRun(s: seq<wchar>, base: nat): (ds: seq<nat>)
    requires base == 10 || base == 16
    ensures |ds| <= |s|
    ensures forall k :: 0 <= k < |ds| ==> ds[k] == DigitValue(s[k], base)
    ensures |ds| < |s| ==> DigitValue(s[|ds|], base) == -1
  {
    if s == [] || DigitValue(s[0], base) == -1 then []
    else [DigitValue(s[0], base)] + DigitRun(s[1..], base)
  }

  /** The number that digits denote, most significant first. */
  function Horner(ds: seq<nat>, base: nat): nat {
    if ds == [] then 0 else Horner(ds[..|ds| - 1], base) * base + ds[|ds| - 1]
  }

  /** What the text denotes: spaces are skipped, then the longest run of digits counts. */
  function Denoted(s: seq<wchar>, base: nat): nat
    requires base == 10 || base == 16
  {
    Horner(DigitRun(s[SkipSpaces(s)..], base), base)
  }

  // ---------- the parsers ----------

  lemma HornerSnoc(ds: seq<nat>, k: nat, base: nat)
    requires k < |ds|
    ensures Horner(ds[..k + 1], base) == Horner(ds[..k], base) * base + ds[k]
  {
    assert ds[..k + 1][..k] == ds[..k];
  }

  /** Adding a digit to a truncated number, and truncating again. */
  lemma TruncatedStep(h: nat, base: nat, d: nat)
    requires base > 0
    ensures ((h % TWO64) * base + d) % TWO64 == (h * base + d) % TWO64
  {
    var q, r := h / TWO64, h % TWO64;
    assert h * base + d == (q * base) * TWO64 + (r * base + d) by {
      assert h == q * TWO64 + r;
      Distributes(q, r, base);
    }
    var x := r * base + d;
    ModUnique(h * base + d, q * base + x / TWO64, x % TWO64, TWO64);
  }

  lemma Distributes(q: nat, r: nat, base: nat)
    ensures (q * TWO64 + r) * base == (q * base) * TWO64 + r * base
  {
  }

  method Xtoi(str: Text) returns (u: nat)
    ensures u == Denoted(str, 16) % TWO64
  {
    hide Horner, DigitRun, SkipSpaces;
    var p := Skip(str);
    ghost var ds := DigitRun(str[p..], 16);
    u := 0;
    var k := 0;
    assert ds[..0] == [] && Horner([], 16) == 0 by { NoDigits(ds); }
    var c := CharAt(str, p);
    while c != 0
      invariant p + k <= |str| && k <= |ds| && c == CharAt(str, p + k)
      invariant u == Horner(ds[..k], 16) % TWO64
      decreases |str| - k
    {
      assert k < |str[p..]| && str[p..][k] == c;
      if 0x61 <= c <= 0x66 {
        c := c - 0x20;
      }
      if (0x30 <= c <= 0x39) || (0x41 <= c <= 0x46) {
        var d := c - (if c >= 0x41 then 0x41 - 10 else 0x30);
        assert k < |ds| && ds[k] == d;
        HornerSnoc(ds, k, 16);
        ShiftIn(Horner(ds[..k], 16), d);
        u := (u * 16) % TWO64 + d;
      } else {
        break;
      }
      k := k + 1;
      c := CharAt(str, p + k);
    }
    assert ds[..k] == ds;
  }

  /** Shifting left by four and or-ing in a digit is multiplying and adding. */
  lemma ShiftIn(h: nat, d: nat)
    requires d < 16
    ensures ((h % TWO64) * 16) % TWO64 + d == (h * 16 + d) % TWO64
  {
    TruncatedStep(h, 16, d);
  }

  lemma NoDigits(ds: seq<nat>)
    ensures ds[..0] == [] && Horner([], 16) == 0 && Horner([], 10) == 0
  {
  }

  method Skip(str: Text) returns (p: nat)
    ensures p == SkipSpaces(str)
  {
    p := 0;
    while CharAt(str, p) == SPACE
      invariant 0 <= p <= |str| && p + SkipSpaces(str[p..]) == SkipSpaces(str)
      decreases |str| - p
    {
      assert str[p..][1..] == str[p + 1..];
      p := p + 1;
    }
  }

  method Atoi(str: Text) returns (u: nat)
    ensures u == Denoted(str, 10) % TWO64
  {
    hide Horner, DigitRun, SkipSpaces;
    var p := Skip(str);
    ghost var ds := DigitRun(str[p..], 10);
    u := 0;
    var k := 0;
    NoDigits(ds);
    var c := CharAt(str, p);
    while c != 0
      invariant p + k <= |str| && k <= |ds| && c == CharAt(str, p + k)
      invariant u == Horner(ds[..k], 10) % TWO64
      decreases |str| - k
    {
      assert k < |str[p..]| && str[p..][k] == c;
      if 0x30 <= c <= 0x39 {
        assert k < |ds| && ds[k] == c - 0x30;
        HornerSnoc(ds, k, 10);
        TruncatedStep(Horner(ds[..k], 10), 10, c - 0x30);
        u := (u * 10 + c - 0x30) % TWO64;
      } else {
        break;
      }
      k := k + 1;
      c := CharAt(str, p + k);
    }
    assert ds[..k] == ds;
  }

  // ---------- round trips ----------

  /** Digits in the opposite order. */
  function Turned(ds: seq<nat>): (r: seq<nat>)
    ensures |r| == |ds|
  {
    seq(|ds|, i requires 0 <= i < |ds| => ds[|ds| - 1 - i])
  }

  lemma {:induction false} HornerOfTurned(ds: seq<nat>, base: nat)
    ensures Horner(Turned(ds), base) == Value(ds, base)
  {
    if ds != [] {
      var t := Turned(ds);
      assert t[..|t| - 1] == Turned(ds[1..]);
      HornerOfTurned(ds[1..], base);
    }
  }

  /** A text of digits is read as a whole. */
  lemma ReadsDigits(t: seq<wchar>, ds: seq<nat>, base: nat)
    requires base == 10 || base == 16
    requires |t| == |ds| > 0 && forall i :: 0 <= i < |t| ==> t[i] != SPACE && DigitValue(t[i], base) == ds[|ds| - 1 - i]
    ensures Denoted(t, base) == Value(ds, base)
  {
    hide Horner, Value;
    assert SkipSpaces(t) == 0 && t[0..] == t;
    var run := DigitRun(t, base);
    assert run == Turned(ds);
    HornerOfTurned(ds, base);
  }

  lemma ReadsZero(base: nat)
    requires base == 10 || base == 16
    ensures Denoted([ZERO], base) == 0
  {
    ReadsDigits([ZERO], [0], base);
  }

  lemma Digits16(v: nat)
    requires v > 0
    ensures var t, ds := HexOf(v), Digits(v, 16);
      |t| == |ds| > 0 && forall i :: 0 <= i < |t| ==> t[i] != SPACE && DigitValue(t[i], 16) == ds[|ds| - 1 - i]
  {
    var t, ds := HexOf(v), Digits(v, 16);
    hide Digits;
    forall i | 0 <= i < |t| ensures t[i] != SPACE && DigitValue(t[i], 16) == ds[|ds| - 1 - i] {
      assert t[i] == HexChar(ds[|ds| - 1 - i]);
    }
  }

  lemma Digits10(v: nat)
    requires v > 0
    ensures var t, ds := DecOf(v), Digits(v, 10);
      |t| == |ds| > 0 && forall i :: 0 <= i < |t| ==> t[i] != SPACE && DigitValue(t[i], 10) == ds[|ds| - 1 - i]
  {
    var t, ds := DecOf(v), Digits(v, 10);
    hide Digits;
    forall i | 0 <= i < |t| ensures t[i] != SPACE && DigitValue(t[i], 10) == ds[|ds| - 1 - i] {
      assert t[i] == DecChar(ds[|ds| - 1 - i]);
    }
  }

  /** Parsing what was printed in hexadecimal gives the number back, for every 64-bit number. */
  lemma HexRoundTrip(v: nat)
    ensures Denoted(HexOf(v), 16) == v
  {
    DigitsDenote(v, 16);
    hide Denoted, Digits, Value;
    if v == 0 {
      ReadsZero(16);
    } else {
      Digits16(v);
      ReadsDigits(HexOf(v), Digits(v, 16), 16);
    }
  }

  lemma DecRead(v: nat)
    ensures Denoted(DecOf(v), 10) == v
  {
    DigitsDenote(v, 10);
    hide Denoted, Digits, Value;
    if v == 0 {
      ReadsZero(10);
    } else {
      Digits10(v);
      ReadsDigits(DecOf(v), Digits(v, 10), 10);
    }
  }

  /** Parsing what was printed in decimal gives the number back if and only if it is not negative. */
  lemma DecRoundTrip(v: int)
    ensures Denoted(SignedOf(v, false), 10) == v <==> v >= 0
  {
    hide Digits, DecOf, Denoted;
    if v >= 0 {
      DecRead(v);
      ReadsZero(10);
      assert [] + DecOf(v) == DecOf(v);
    } else {
      ReadsMinus(DecOf(-v));
    }
  }

  lemma ReadsMinus(t: seq<wchar>)
    ensures Denoted([MINUS] + t, 10) == 0
  {
    var s := [MINUS] + t;
    assert SkipSpaces(s) == 0 && s[0..] == s && DigitRun(s, 10) == [];
  }

  // ---------- commas ----------

  function Strip(t: seq<wchar>): seq<wchar> {
    if t == [] then [] else (if t[0] == COMMA then [] else [t[0]]) + Strip(t[1..])
  }

  /** Without its commas the text is the plain text. */
  lemma {:induction false} StripGrouped(t: seq<wchar>, first: bool)
    requires forall i :: 0 <= i < |t| ==> t[i] != COMMA
    ensures Strip(Grouped(t, first)) == t
  {
    if t != [] {
      var g, rest := Grouped(t, first), Grouped(t[1..], false);
      StripGrouped(t[1..], false);
      if CommaDue(|t|, first) {
        assert g[1..] == [t[0]] + rest && g[1..][1..] == rest;
      } else {
        assert g[1..] == rest;
      }
    }
  }

  lemma {:induction false} GroupedLength(t: seq<wchar>)
    ensures |Grouped(t, false)| == |t| + |t| / 3
  {
    if t != [] {
      GroupedLength(t[1..]);
    }
  }

  /** Counted from the right, every fourth character is a comma and no other is; and none is leading. */
  lemma {:induction false} CommaPlaces(t: seq<wchar>, first: bool, k: nat)
    requires forall i :: 0 <= i < |t| ==> t[i] != COMMA
    requires k < |Grouped(t, first)|
    ensures var g := Grouped(t, first); g[|g| - 1 - k] == COMMA <==> k % 4 == 3
    ensures first ==> Grouped(t, first)[0] != COMMA
  {
    var g, rest := Grouped(t, first), Grouped(t[1..], false);
    var head := if CommaDue(|t|, first) then [COMMA, t[0]] else [t[0]];
    assert g == head + rest;
    GroupedLength(t[1..]);
    CommaTurns(|t| - 1);
    hide Grouped;
    if k < |rest| {
      CommaPlaces(t[1..], false, k);
      assert g[|g| - 1 - k] == rest[|rest| - 1 - k];
    } else {
      assert g[|g| - 1 - k] == head[|head| - 1 - (k - |rest|)];
    }
  }

  lemma CommaTurns(n: nat)
    ensures (n + n / 3) % 4 != 3
    ensures (n + 1) % 3 == 0 ==> (n + n / 3 + 1) % 4 == 3
  {
    var q, r := n / 3, n % 3;
    ModUnique(n + q, q, r, 4);
    if r < 2 {
      ModUnique(n + 1, q, r + 1, 3);
    } else {
      ModUnique(n + q + 1, q, 3, 4);
    }
  }

  lemma {:induction false} GroupedChars(t: seq<wchar>, first: bool, k: nat)
    requires k < |Grouped(t, first)|
    ensures Grouped(t, first)[k] == COMMA || Grouped(t, first)[k] in t
  {
    var g, rest := Grouped(t, first), Grouped(t[1..], false);
    var n := |g| - |rest|;
    if k >= n {
      GroupedChars(t[1..], false, k - n);
    }
  }

  // ---------- numbers as one writes them ----------

  /** The most significant digit is not zero. */
  lemma {:induction false} LeadingDigit(v: nat, base: nat)
    requires v > 0 && base >= 2
    ensures var ds := Digits(v, base); ds != [] && ds[|ds| - 1] != 0
  {
    Shrinks(v, base);
    if v / base > 0 {
      LeadingDigit(v / base, base);
    } else {
      assert v == v / base * base + v % base;
    }
  }

  /** Decimal digits without leading zeros, with commas at every fourth place from the right or none at all. */
  predicate SpellsDecimal(t: seq<wchar>, v: nat, comma: bool) {
    && t != []
    && (forall i :: 0 <= i < |t| ==> if comma && (|t| - 1 - i) % 4 == 3 then t[i] == 0x2C else 0x30 <= t[i] <= 0x39)
    && (t[0] == 0x30 ==> v == 0 && |t| == 1)
    && Denoted(Strip(t), 10) == v
  }

  /** Hexadecimal digits in upper case without leading zeros. */
  predicate SpellsHex(t: seq<wchar>, v: nat) {
    && t != []
    && (forall i :: 0 <= i < |t| ==> 0x30 <= t[i] <= 0x39 || 0x41 <= t[i] <= 0x46)
    && (t[0] == 0x30 ==> v == 0 && |t| == 1)
    && Denoted(t, 16) == v
  }

  lemma HexDigits(v: nat)
    ensures var t := HexOf(v);
            && t != [] && (forall i :: 0 <= i < |t| ==> 0x30 <= t[i] <= 0x39 || 0x41 <= t[i] <= 0x46)
            && (t[0] == 0x30 ==> v == 0 && |t| == 1)
  {
    hide Digits;
    if v > 0 {
      LeadingDigit(v, 16);
      var ds := Digits(v, 16);
      assert forall i :: 0 <= i < |ds| ==> HexText(ds)[i] == HexChar(ds[|ds| - 1 - i]);
    }
  }

  lemma HexSpelled(v: nat)
    ensures SpellsHex(HexOf(v), v)
  {
    hide HexOf, Denoted;
    HexRoundTrip(v);
    HexDigits(v);
  }

  lemma PlainDigits(v: nat)
    ensures var t := DecOf(v);
            && t != [] && (forall i :: 0 <= i < |t| ==> 0x30 <= t[i] <= 0x39) && (t[0] == 0x30 ==> v == 0 && |t| == 1)
  {
    hide Digits;
    if v > 0 {
      LeadingDigit(v, 10);
      var ds := Digits(v, 10);
      assert forall i :: 0 <= i < |ds| ==> DecText(ds)[i] == DecChar(ds[|ds| - 1 - i]);
    }
  }

  lemma {:induction false} StripPlain(t: seq<wchar>)
    requires forall i :: 0 <= i < |t| ==> t[i] != COMMA
    ensures Strip(t) == t
  {
    if t != [] {
      StripPlain(t[1..]);
    }
  }

  lemma MagnitudeSpelled(v: nat, comma: bool)
    ensures SpellsDecimal(Grouping(DecOf(v), true, comma), v, comma)
  {
    hide DecOf, Denoted, Strip, Grouped;
    var t := DecOf(v);
    PlainDigits(v);
    DecRead(v);
    if comma {
      GroupedSpelled(t);
      StripGrouped(t, true);
    } else {
      StripPlain(t);
    }
  }

  lemma GroupedSpelled(t: seq<wchar>)
    requires t != [] && forall i :: 0 <= i < |t| ==> 0x30 <= t[i] <= 0x39
    ensures var g := Grouped(t, true);
            && g != [] && g[0] == t[0] && (|t| == 1 ==> |g| == 1)
            && forall i :: 0 <= i < |g| ==> if (|g| - 1 - i) % 4 == 3 then g[i] == 0x2C else 0x30 <= g[i] <= 0x39
  {
    var g := Grouped(t, true);
    assert g == [t[0]] + Grouped(t[1..], false);
    hide Grouped;
    forall i | 0 <= i < |g| ensures if (|g| - 1 - i) % 4 == 3 then g[i] == 0x2C else 0x30 <= g[i] <= 0x39 {
      CommaPlaces(t, true, |g| - 1 - i);
      GroupedChars(t, true, i);
    }
  }

  /** The magnitude as one writes it, behind a minus sign if the number is negative. */
  predicate SpellsSigned(t: seq<wchar>, v: int, comma: bool) {
    if v < 0 then t != [] && t[0] == 0x2D && SpellsDecimal(t[1..], -v, comma) else SpellsDecimal(t, v, comma)
  }

  /** The printed number is the number as one writes it. */
  lemma SignedSpelled(v: int, comma: bool)
    ensures SpellsSigned(SignedOf(v, comma), v, comma)
  {
    hide SpellsDecimal, DecOf, Grouping;
    if v == 0 {
      ZeroSpelled(comma);
    } else {
      var t := Grouping(DecOf(Magnitude(v)), true, comma);
      MagnitudeSpelled(Magnitude(v), comma);
      assert [] + t == t && ([MINUS] + t)[1..] == t;
    }
  }

  lemma ZeroSpelled(comma: bool)
    ensures SpellsDecimal([ZERO], 0, comma)
  {
    hide Denoted;
    ReadsZero(10);
    StripPlain([ZERO]);
  }

  /** Printed numbers are short. */
  lemma ShortNumbers(v: int, comma: bool)
    requires -TWO63 <= v < TWO64
    ensures |SignedOf(v, comma)| <= 27
    ensures v >= 0 ==> |HexOf(v)| <= 16
    ensures 0 <= v < TWO32 ==> |HexOf(v)| <= 8
  {
    assert Power(16, 8) == TWO32 by {
      assert Power(16, 4) == TWO16;
    }
    hide Digits, Power;
    DigitCounts(Magnitude(v));
    if 0 <= v < TWO32 {
      DigitsBound(v, 16, 8);
    }
  }

  // ---------- what the parsers do not mind ----------

  /** The letters of a text in upper case. */
  function Upper(t: seq<wchar>): (r: seq<wchar>)
    ensures |r| == |t|
  {
    seq(|t|, i requires 0 <= i < |t| => if 0x61 <= t[i] <= 0x7A then t[i] - 0x20 else t[i])
  }

  lemma {:induction false} UpperRun(t: seq<wchar>)
    ensures DigitRun(Upper(t), 16) == DigitRun(t, 16)
  {
    if t != [] {
      assert Upper(t)[1..] == Upper(t[1..]);
      UpperRun(t[1..]);
    }
  }

  lemma {:induction false} UpperSpaces(t: seq<wchar>)
    ensures SkipSpaces(Upper(t)) == SkipSpaces(t)
  {
    if t != [] {
      assert Upper(t)[1..] == Upper(t[1..]);
      UpperSpaces(t[1..]);
    }
  }

  /** The case of the letters does not change what a hexadecimal text denotes. */
  lemma CaseIrrelevant(t: seq<wchar>)
    ensures Denoted(Upper(t), 16) == Denoted(t, 16)
  {
    hide Horner;
    var k := SkipSpaces(t);
    UpperSpaces(t);
    assert Upper(t)[k..] == Upper(t[k..]);
    UpperRun(t[k..]);
  }

  lemma {:induction false} SpacesSkipped(spaces: seq<wchar>, u: seq<wchar>)
    requires forall i :: 0 <= i < |spaces| ==> spaces[i] == 0x20
    requires u == [] || u[0] != 0x20
    ensures SkipSpaces(spaces + u) == |spaces|
  {
    if spaces == [] {
      assert spaces + u == u;
    } else {
      assert (spaces + u)[1..] == spaces[1..] + u;
      SpacesSkipped(spaces[1..], u);
    }
  }

  predicate AllDigits(t: seq<wchar>, base: nat)
    requires base == 10 || base == 16
  {
    forall i :: 0 <= i < |t| ==> DigitValue(t[i], base) >= 0
  }

  lemma RunCons(c: wchar, u: seq<wchar>, base: nat)
    requires base == 10 || base == 16
    ensures DigitRun([c] + u, base)
      == if DigitValue(c, base) < 0 then [] else [DigitValue(c, base)] + DigitRun(u, base)
  {
    hide DigitValue;
    assert ([c] + u)[1..] == u;
  }

  lemma RunStop(rest: seq<wchar>, base: nat)
    requires base == 10 || base == 16
    requires rest == [] || DigitValue(rest[0], base) < 0
    ensures DigitRun(rest, base) == [] == DigitRun([], base)
  {
  }

  lemma {:induction false} RunStops(t: seq<wchar>, rest: seq<wchar>, base: nat)
    requires base == 10 || base == 16
    requires AllDigits(t, base) && (rest == [] || DigitValue(rest[0], base) < 0)
    ensures DigitRun(t + rest, base) == DigitRun(t, base)
  {
    hide DigitValue, DigitRun;
    if t == [] {
      assert t + rest == rest;
      RunStop(rest, base);
    } else {
      var u := t[1..];
      assert t == [t[0]] + u && t + rest == [t[0]] + (u + rest);
      RunStops(u, rest, base);
      RunCons(t[0], u, base);
      RunCons(t[0], u + rest, base);
    }
  }

  /** Spaces in front, and what follows the first character that is no digit, do not matter. */
  lemma Surrounded(spaces: seq<wchar>, t: seq<wchar>, rest: seq<wchar>, base: nat)
    requires base == 10 || base == 16
    requires forall i :: 0 <= i < |spaces| ==> spaces[i] == 0x20
    requires AllDigits(t, base)
    requires rest == [] || (DigitValue(rest[0], base) < 0 && rest[0] != 0x20)
    ensures Denoted(spaces + (t + rest), base) == Denoted(t, base) == Horner(DigitRun(t, base), base)
  {
    assert t != [] ==> t[0] != 0x20;
    hide Horner, SkipSpaces, DigitRun, DigitValue;
    SpacesSkipped(spaces, t + rest);
    SpacesSkipped([], t);
    assert [] + t == t && t[0..] == t;
    assert (spaces + (t + rest))[|spaces|..] == t + rest;
    RunStops(t, rest, base);
  }

  lemma {:induction false} HornerZero(ds: seq<nat>, base: nat)
    ensures Horner([0] + ds, base) == Horner(ds, base)
  {
    var zs := [0] + ds;
    if ds == [] {
      assert zs[..0] == [];
    } else {
      assert zs[..|zs| - 1] == [0] + ds[..|ds| - 1];
      HornerZero(ds[..|ds| - 1], base);
    }
  }

  /** Zeros in front of a number do not matter. */
  lemma {:induction false} LeadingZeros(zeros: seq<wchar>, t: seq<wchar>, base: nat)
    requires base == 10 || base == 16
    requires forall i :: 0 <= i < |zeros| ==> zeros[i] == 0x30
    requires AllDigits(t, base)
    ensures Denoted(zeros + t, base) == Denoted(t, base)
    decreases |zeros|
  {
    assert DigitValue(0x30, base) == 0;
    hide DigitValue, DigitRun, Denoted, Horner;
    if zeros == [] {
      assert zeros + t == t;
    } else {
      var u := zeros[1..] + t;
      assert zeros + t == [0x30] + u;
      LeadingZeros(zeros[1..], t, base);
      ZerosAndDigits(zeros[1..], t, base);
      ZerosAndDigits(zeros, t, base);
      WholeRun(u, base);
      WholeRun(zeros + t, base);
      RunCons(0x30, u, base);
      HornerZero(DigitRun(u, base), base);
    }
  }

  lemma ZerosAndDigits(zeros: seq<wchar>, t: seq<wchar>, base: nat)
    requires base == 10 || base == 16
    requires AllDigits(t, base) && forall i :: 0 <= i < |zeros| ==> zeros[i] == 0x30
    ensures AllDigits(zeros + t, base)
  {
  }

  lemma WholeRun(t: seq<wchar>, base: nat)
    requires base == 10 || base == 16
    requires AllDigits(t, base)
    ensures Denoted(t, base) == Horner(DigitRun(t, base), base)
  {
    hide Denoted, Horner, DigitRun, DigitValue;
    assert [] + (t + []) == t;
    Surrounded([], t, [], base);
  }

  /** 1709 in both bases, with letters of both cases. */
  lemma Readings()
    ensures Denoted([0x20, 0x31, 0x37, 0x30, 0x39, 0x67], 10) == 1709
    ensures Denoted([0x20, 0x36, 0x41, 0x64, 0x67], 16) == 1709
  {
    HornerValues();
    hide Horner;
    DecimalRun();
    HexadecimalRun();
  }

  lemma HornerValues()
    ensures Horner([1, 7, 0, 9], 10) == 1709 && Horner([6, 10, 13], 16) == 1709
  {
    assert [1, 7, 0, 9][..3] == [1, 7, 0] && [1, 7, 0][..2] == [1, 7] && [1, 7][..1] == [1] && [1][..0] == [];
    assert [6, 10, 13][..2] == [6, 10] && [6, 10][..1] == [6] && [6][..0] == [];
    assert Horner([1, 7], 10) == 17;
    assert Horner([6, 10], 16) == 106;
  }

  lemma DecimalRun()
    ensures Denoted([0x20, 0x31, 0x37, 0x30, 0x39, 0x67], 10) == Horner([1, 7, 0, 9], 10)
  {
    hide Horner;
    var t: seq<wchar> := [0x20, 0x31, 0x37, 0x30, 0x39, 0x67];
    assert t[1] != 0x20 && SkipSpaces(t) == 1;
    var run := DigitRun(t[1..], 10);
    assert t[1..][4] == 0x67 && |run| == 4;
    assert run == [1, 7, 0, 9];
  }

  lemma HexadecimalRun()
    ensures Denoted([0x20, 0x36, 0x41, 0x64, 0x67], 16) == Horner([6, 10, 13], 16)
  {
    hide Horner;
    var t: seq<wchar> := [0x20, 0x36, 0x41, 0x64, 0x67];
    assert t[1] != 0x20 && SkipSpaces(t) == 1;
    var run := DigitRun(t[1..], 16);
    assert t[1..][3] == 0x67 && |run| == 3;
    assert run == [6, 10, 13];
  }
}
