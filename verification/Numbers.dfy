/** Numbers as text: the two digit printers of the print engine. */
module Numbers {
  import opened Machine
  import opened Arith
  import opened Seqs
  import opened Strings
  import Division

  const SPACE: wchar := 0x20
  const COMMA: wchar := 0x2C
  const MINUS: wchar := 0x2D
  const ZERO: wchar := 0x30

  // ---------- digits ----------

  /** The digits of a number, least significant first, without leading zeros. */
  function Digits(v: nat, base: nat): (ds: seq<nat>)
    requires base >= 2
    ensures forall i :: 0 <= i < |ds| ==> ds[i] < base
  {
    if v == 0 then [] else Shrinks(v, base); [v % base] + Digits(v / base, base)
  }

  lemma Shrinks(v: nat, base: nat)
    requires v > 0 && base >= 2
    ensures v / base < v
  {
    var q := v / base;
    assert v == q * base + v % base;
    Gap(q, base, 1);
    assert q * base >= 2 * q;
  }

  /** The number that digits denote, least significant first. */
  function Value(ds: seq<nat>, base: nat): nat {
    if ds == [] then 0 else ds[0] + base * Value(ds[1..], base)
  }

  lemma {:induction false} DigitsDenote(v: nat, base: nat)
    requires base >= 2
    ensures Value(Digits(v, base), base) == v
  {
    if v > 0 {
      Shrinks(v, base);
      DigitsDenote(v / base, base);
    }
  }

  function Power(base: nat, n: nat): nat {
    if n == 0 then 1 else base * Power(base, n - 1)
  }

  lemma {:induction false} DigitsBound(v: nat, base: nat, n: nat)
    requires base >= 2 && v < Power(base, n)
    ensures |Digits(v, base)| <= n
  {
    if v > 0 {
      QuotientBelow(v, base, Power(base, n - 1));
      DigitsBound(v / base, base, n - 1);
    }
  }

  lemma QuotientBelow(v: nat, base: nat, p: nat)
    requires base > 0 && v < base * p
    ensures v / base < p
  {
    var q := v / base;
    assert v == q * base + v % base;
    if q >= p {
      Monotone(p, q, base);
    }
  }

  lemma Monotone(a: nat, b: nat, c: nat)
    requires a <= b
    ensures c * a <= b * c
  {
  }

  /** A 64-bit number has at most 16 hexadecimal and at most 20 decimal digits. */
  lemma DigitCounts(v: nat)
    requires v < TWO64
    ensures |Digits(v, 16)| <= 16 && |Digits(v, 10)| <= 20
  {
    assert Power(16, 16) == TWO64 by {
      assert Power(16, 8) == 0x1_0000_0000;
    }
    assert Power(10, 20) > TWO64 by {
      assert Power(10, 10) == 10_000_000_000;
    }
    DigitsBound(v, 16, 16);
    DigitsBound(v, 10, 20);
  }

  // ---------- text ----------

  function HexChar(d: nat): (c: wchar)
    requires d < 16
    ensures c != 0 && c != SPACE
  {
    if d < 10 then ZERO + d else 0x41 + d - 10
  }

  function DecChar(d: nat): (c: wchar)
    requires d < 10
    ensures c != 0 && c != COMMA && c != SPACE
  {
    ZERO + d
  }

  /** Digits, least significant first, as text, most significant first. */
  function HexText(ds: seq<nat>): (t: seq<wchar>)
    requires forall i :: 0 <= i < |ds| ==> ds[i] < 16
  {
    seq(|ds|, i requires 0 <= i < |ds| => HexChar(ds[|ds| - 1 - i]))
  }

  function DecText(ds: seq<nat>): (t: seq<wchar>)
    requires forall i :: 0 <= i < |ds| ==> ds[i] < 10
  {
    seq(|ds|, i requires 0 <= i < |ds| => DecChar(ds[|ds| - 1 - i]))
  }

  function HexOf(v: nat): seq<wchar> {
    if v == 0 then [ZERO] else HexText(Digits(v, 16))
  }

  function DecOf(v: nat): seq<wchar> {
    if v == 0 then [ZERO] else DecText(Digits(v, 10))
  }

  /** The text and its terminator. */
  function Terminated(t: seq<wchar>): seq<wchar> {
    t + [0]
  }

  /** One character through a pointer. */
  method Put(buffer: array<wchar>, p: nat, c: wchar, ghost m: seq<wchar>, ghost at: nat, ghost done: seq<wchar>)
    requires p == at + |done| < buffer.Length == |m|
    requires buffer[..] == Overwrite(m, at, done)
    modifies buffer
    ensures buffer[..] == Overwrite(m, at, done + [c])
  {
    buffer[p] := c;
    OverwriteSnoc(m, at, done, c);
  }

  /** Prints in hexadecimal: digits are collected backwards and then turned around. */
  method ValueToHex(buffer: array<wchar>, at: nat, v: nat)
    requires v < TWO64 && at + 17 <= buffer.Length
    modifies buffer
    ensures |HexOf(v)| <= 16 && buffer[..] == Overwrite(old(buffer[..]), at, Terminated(HexOf(v)))
  {
    DigitCounts(v);
    ghost var m := buffer[..];
    OverwriteNothing(m, at);
    if v == 0 {
      Put(buffer, at, ZERO, m, at, []);
      Put(buffer, at + 1, 0, m, at, [ZERO]);
      return;
    }
    var str := new wchar[30];
    var n := CollectHex(str, v);
    EmitReversed(buffer, at, str, n, HexOf(v));
  }

  /** The second loop: the collected digits are turned around and terminated. */
  method EmitReversed(buffer: array<wchar>, at: nat, str: array<wchar>, n: nat, ghost t: seq<wchar>)
    requires buffer != str && n == |t| <= str.Length && at + n < buffer.Length
    requires forall i :: 0 <= i < n ==> str[i] == t[n - 1 - i]
    modifies buffer
    ensures buffer[..] == Overwrite(old(buffer[..]), at, Terminated(t))
  {
    ghost var m := buffer[..];
    OverwriteNothing(m, at);
    hide Overwrite;
    var p1, p2 := n, at;
    while p1 != 0
      invariant 0 <= p1 <= n && p2 == at + n - p1
      invariant buffer[..] == Overwrite(m, at, t[..n - p1])
    {
      p1 := p1 - 1;
      assert t[..n - p1] == t[..n - p1 - 1] + [str[p1]];
      Put(buffer, p2, str[p1], m, at, t[..n - p1 - 1]);
      p2 := p2 + 1;
    }
    assert t[..n] == t;
    Put(buffer, p2, 0, m, at, t);
  }

  lemma HexAt(v: nat, i: nat)
    requires v > 0
    ensures |HexOf(v)| == |Digits(v, 16)|
    ensures i < |HexOf(v)| ==> HexOf(v)[|HexOf(v)| - 1 - i] == HexChar(Digits(v, 16)[i])
  {
    hide Digits;
  }

  lemma DigitsStep(v: nat, base: nat)
    requires v > 0 && base >= 2
    ensures Digits(v, base) != [] && Digits(v, base)[0] == v % base && Digits(v, base)[1..] == Digits(v / base, base)
  {
  }

  lemma DigitsNone(base: nat)
    requires base >= 2
    ensures Digits(0, base) == []
  {
  }

  method CollectHex(str: array<wchar>, v: nat) returns (p1: nat)
    requires 0 < v < TWO64 && str.Length == 30
    modifies str
    ensures p1 == |HexOf(v)| <= 16
    ensures forall i :: 0 <= i < p1 ==> str[i] == HexOf(v)[p1 - 1 - i]
  {
    hide Digits, HexOf, HexChar;
    HexAt(v, 0);
    p1 := CollectNibbles(str, v);
    forall i | 0 <= i < p1 ensures str[i] == HexOf(v)[p1 - 1 - i] {
      HexAt(v, i);
    }
  }

  /** The first loop: the digits, least significant first. */
  method CollectNibbles(str: array<wchar>, v: nat) returns (p1: nat)
    requires v < TWO64 && str.Length == 30
    modifies str
    ensures p1 == |Digits(v, 16)| <= 16
    ensures forall i :: 0 <= i < p1 ==> str[i] == HexChar(Digits(v, 16)[i])
  {
    hide Digits, HexChar;
    DigitCounts(v);
    ghost var ds := Digits(v, 16);
    var rest: nat := v;
    p1 := 0;
    assert ds[0..] == ds;
    while rest != 0
      invariant 0 <= p1 <= |ds| && ds[p1..] == Digits(rest, 16)
      invariant forall i :: 0 <= i < p1 ==> str[i] == HexChar(ds[i])
      decreases rest
    {
      Shrinks(rest, 16);
      DigitsStep(rest, 16);
      assert ds[p1] == ds[p1..][0] && ds[p1 + 1..] == ds[p1..][1..];
      str[p1] := HexChar(rest % 16);
      p1 := p1 + 1;
      rest := rest / 16;
    }
    DigitsNone(16);
  }

  // ---------- decimal, with or without commas ----------

  /** A comma goes in front of the digit that has `r` digits from itself to the end. */
  predicate CommaDue(r: nat, first: bool) {
    !first && r % 3 == 0
  }

  /** A comma in front of every group of three, counted from the right; none in front of the first digit. */
  function Grouped(t: seq<wchar>, first: bool): (g: seq<wchar>)
    ensures |t| <= |g| <= |t| + |t| / 3
    ensures NoNul(t) ==> NoNul(g)
  {
    if t == [] then []
    else (if CommaDue(|t|, first) then [COMMA, t[0]] else [t[0]]) + Grouped(t[1..], false)
  }

  function Grouping(t: seq<wchar>, first: bool, comma: bool): seq<wchar> {
    if comma then Grouped(t, first) else t
  }

  function Magnitude(v: int): nat {
    if v < 0 then -v else v
  }

  /** The text of a signed number. */
  function SignedOf(v: int, comma: bool): seq<wchar> {
    if v == 0 then [ZERO]
    else (if v < 0 then [MINUS] else []) + Grouping(DecOf(Magnitude(v)), true, comma)
  }

  /** The countdown to the next comma, with `r` of `n` digits to go. */
  function Counter(n: nat, r: nat, comma: bool): int {
    if !comma then 1000 - (n - r)
    else if r % 3 == 0 then (if r == n then 4 else 1)
    else r % 3 + 1
  }

  /**
    * Prints in decimal.  Negating the smallest 64-bit number wraps around to
    * itself, and the unsigned division then sees the right magnitude.
    */
  method ValueToString(buffer: array<wchar>, at: nat, comma: bool, v: int)
    requires -TWO63 <= v < TWO63 && at + 28 <= buffer.Length
    modifies buffer
    ensures |SignedOf(v, comma)| <= 27
    ensures buffer[..] == Overwrite(old(buffer[..]), at, Terminated(SignedOf(v, comma)))
  {
    hide DecOf, Digits, Grouped, Overwrite, Grouping;
    ghost var m0 := buffer[..];
    OverwriteNothing(m0, at);
    if v == 0 {
      Put(buffer, at, ZERO, m0, at, []);
      assert [] + [ZERO] == [ZERO];
      Put(buffer, at + 1, 0, m0, at, [ZERO]);
      return;
    }
    var p2 := at;
    ghost var sign: seq<wchar> := [];
    if v < 0 {
      sign := [MINUS];
      assert [] + sign == sign;
      Put(buffer, p2, MINUS, m0, at, []);
      p2 := p2 + 1;
    }
    var m := Magnitude(v);
    ghost var t := DecOf(m);
    var str := new wchar[40];
    var n := CollectDigits(str, m);
    EmitDigits(buffer, p2, str, n, comma, t);
    OverwriteTwice(m0, at, sign, Terminated(Grouping(t, true, comma)));
    Assoc(sign, Grouping(t, true, comma), [0]);
  }

  lemma GroupingStep(t: seq<wchar>, k: nat, first: bool, comma: bool)
    requires k < |t|
    ensures Grouping(t[k..], first, comma)
      == (if comma && CommaDue(|t| - k, first) then [COMMA, t[k]] else [t[k]]) + Grouping(t[k + 1..], false, comma)
  {
    HeadTail(t[k..]);
    assert t[k..][1..] == t[k + 1..];
  }

  lemma GroupingBounds(t: seq<wchar>, first: bool, comma: bool)
    ensures |t| <= |Grouping(t, first, comma)| <= |t| + |t| / 3
    ensures t == [] ==> Grouping(t, first, comma) == []
  {
  }

  lemma GroupingFits(t: seq<wchar>, comma: bool)
    requires |t| <= 20
    ensures |Grouping(t, true, comma)| <= 26
  {
  }

  /** The table lookup that starts the countdown; without commas it starts out of reach. */
  function StartCount(n: nat, comma: bool): (c: int)
    ensures c == Counter(n, n, comma)
  {
    (if comma then [3, 1, 2][n % 3] else 999) + 1
  }

  /** Turns the collected digits around and puts in the commas. */
  method EmitDigits(buffer: array<wchar>, at: nat, str: array<wchar>, n: nat, comma: bool, ghost t: seq<wchar>)
    requires buffer != str && n == |t| <= 20 && n <= str.Length && at + 27 <= buffer.Length
    requires forall i :: 0 <= i < n ==> str[i] == t[n - 1 - i]
    modifies buffer
    ensures |Grouping(t, true, comma)| <= 26
    ensures buffer[..] == Overwrite(old(buffer[..]), at, Terminated(Grouping(t, true, comma)))
  {
    ghost var m := buffer[..];
    hide Grouping, Overwrite, Counter, Done, CommaDue, StartCount, Terminated;
    GroupingFits(t, comma);
    DoneAll(t, comma);
    var p2 := EmitBody(buffer, at, str, n, comma, t);
    EndOfText(Grouping(t, true, comma));
    Put(buffer, p2, 0, m, at, Grouping(t, true, comma));
  }

  lemma EndOfText(t: seq<wchar>)
    ensures Terminated(t) == t + [0]
  {
  }

  /** Digits in the order in which they are collected, the last of the text first. */
  ghost predicate Collected(digits: seq<wchar>, t: seq<wchar>) {
    |t| <= |digits| && forall i :: 0 <= i < |t| ==> digits[i] == t[|t| - 1 - i]
  }

  lemma CollectedAt(digits: seq<wchar>, t: seq<wchar>, i: nat)
    requires Collected(digits, t) && i < |t|
    ensures i < |digits| && digits[i] == t[|t| - 1 - i]
  {
  }

  method EmitBody(buffer: array<wchar>, at: nat, str: array<wchar>, n: nat, comma: bool, ghost t: seq<wchar>)
    returns (p2: nat)
    requires buffer != str && n == |t| <= 20 && n <= str.Length && at + 27 <= buffer.Length
    requires Collected(str[..], t) && |Done(t, n, comma)| <= 26
    modifies buffer
    ensures p2 == at + |Done(t, n, comma)| && buffer[..] == Overwrite(old(buffer[..]), at, Done(t, n, comma))
  {
    hide Overwrite, Counter, Done, Collected, StartCount, Emitted;
    ghost var m := buffer[..];
    NothingEmitted(m, at, t, comma);
    p2 := at;
    var p1, c := n, StartCount(n, comma);
    while p1 != 0
      invariant 0 <= p1 <= n && Emitted(buffer[..], m, at, t, comma, n - p1, p2, c)
    {
      p1 := p1 - 1;
      p2, c := EmitDigit(buffer, p2, c, str, p1, m, at, t, comma);
    }
    AllEmitted(buffer[..], m, at, t, comma, p2, c);
  }

  /** After `k` digits: the text so far, the place behind it and the countdown. */
  ghost predicate Emitted(b: seq<wchar>, m: seq<wchar>, at: nat, t: seq<wchar>, comma: bool, k: nat, p2: nat, c: int) {
    && k <= |t| && c == Counter(|t|, |t| - k, comma)
    && p2 == at + |Done(t, k, comma)| <= at + 26 && at + 27 <= |m|
    && b == Overwrite(m, at, Done(t, k, comma))
  }

  lemma NothingEmitted(m: seq<wchar>, at: nat, t: seq<wchar>, comma: bool)
    requires at + 27 <= |m|
    ensures Emitted(m, m, at, t, comma, 0, at, StartCount(|t|, comma))
  {
    DoneNone(t, m, at, comma);
    hide Overwrite, Counter, Done;
  }

  lemma AllEmitted(b: seq<wchar>, m: seq<wchar>, at: nat, t: seq<wchar>, comma: bool, p2: nat, c: int)
    requires Emitted(b, m, at, t, comma, |t|, p2, c)
    ensures p2 == at + |Done(t, |t|, comma)| && at + 27 <= |m| && |Done(t, |t|, comma)| <= 26
    ensures b == Overwrite(m, at, Done(t, |t|, comma))
  {
  }

  /** One turn of the loop: the countdown, a comma where it has run out, and the digit. */
  method EmitDigit(buffer: array<wchar>, p2: nat, c: int, str: array<wchar>, p1: nat,
                   ghost m: seq<wchar>, ghost at: nat, ghost t: seq<wchar>, comma: bool) returns (p2': nat, c': int)
    requires buffer != str && p1 < |t| <= 20 && |t| <= str.Length && Collected(str[..], t)
    requires Emitted(buffer[..], m, at, t, comma, |t| - p1 - 1, p2, c)
    modifies buffer
    ensures Emitted(buffer[..], m, at, t, comma, |t| - p1, p2', c')
  {
    hide Overwrite, Counter, Done, CommaDue, Collected;
    CollectedAt(str[..], t, p1);
    DoneStep(t, |t| - p1 - 1, comma);
    CounterStep(|t|, p1 + 1, comma);
    c' := c - 1;
    p2' := PutDigit(buffer, p2, c' == 0, str[p1], m, at, Done(t, |t| - p1 - 1, comma));
    if c' == 0 {
      c' := 3;
    }
  }

  /** What is printed for digit `k`. */
  ghost function Piece(t: seq<wchar>, k: nat, comma: bool): seq<wchar>
    requires k < |t|
  {
    if comma && CommaDue(|t| - k, k == 0) then [COMMA, t[k]] else [t[k]]
  }

  /** What the first `k` digits print as. */
  ghost function Done(t: seq<wchar>, k: nat, comma: bool): seq<wchar>
    requires k <= |t|
  {
    if k == 0 then [] else Done(t, k - 1, comma) + Piece(t, k - 1, comma)
  }

  lemma {:induction false} DoneAndRest(t: seq<wchar>, k: nat, comma: bool)
    requires k <= |t|
    ensures Done(t, k, comma) + Grouping(t[k..], k == 0, comma) == Grouping(t, true, comma)
  {
    hide Grouping, CommaDue;
    if k == 0 {
      assert t[0..] == t;
    } else {
      DoneAndRest(t, k - 1, comma);
      GroupingStep(t, k - 1, k - 1 == 0, comma);
      Assoc(Done(t, k - 1, comma), Piece(t, k - 1, comma), Grouping(t[k..], false, comma));
    }
  }

  lemma DoneNone(t: seq<wchar>, m: seq<wchar>, at: nat, comma: bool)
    requires at <= |m|
    ensures Done(t, 0, comma) == [] && Overwrite(m, at, Done(t, 0, comma)) == m
  {
  }

  lemma DoneStep(t: seq<wchar>, k: nat, comma: bool)
    requires k < |t| <= 20
    ensures |Done(t, k + 1, comma)| <= 26
    ensures Done(t, k + 1, comma)
      == Done(t, k, comma) + if comma && CommaDue(|t| - k, k == 0) then [COMMA, t[k]] else [t[k]]
  {
    DoneAndRest(t, k + 1, comma);
    GroupingFits(t, comma);
  }

  lemma DoneAll(t: seq<wchar>, comma: bool)
    ensures Done(t, |t|, comma) == Grouping(t, true, comma)
  {
    DoneAndRest(t, |t|, comma);
    GroupingBounds(t[|t|..], |t| == 0, comma);
  }

  /** A digit, with a comma before it when the countdown has run out. */
  method PutDigit(buffer: array<wchar>, p: nat, due: bool, c: wchar, ghost m: seq<wchar>, ghost at: nat,
                  ghost done: seq<wchar>) returns (p2: nat)
    requires p == at + |done| && p + 2 <= buffer.Length == |m|
    requires buffer[..] == Overwrite(m, at, done)
    modifies buffer
    ensures var piece := if due then [COMMA, c] else [c];
      p2 == p + |piece| && buffer[..] == Overwrite(m, at, done + piece)
  {
    hide Overwrite;
    p2 := p;
    if due {
      assert done + [COMMA, c] == (done + [COMMA]) + [c];
      Put(buffer, p2, COMMA, m, at, done);
      p2 := p2 + 1;
      Put(buffer, p2, c, m, at, done + [COMMA]);
    } else {
      Put(buffer, p2, c, m, at, done);
    }
    p2 := p2 + 1;
  }

  /** The countdown reaches zero exactly where a comma is due. */
  lemma CounterStep(n: nat, r: nat, comma: bool)
    requires 0 < r <= n <= 20
    ensures Counter(n, r, comma) - 1 == 0 <==> comma && CommaDue(r, r == n)
    ensures Counter(n, r - 1, comma) == if comma && CommaDue(r, r == n) then 3 else Counter(n, r, comma) - 1
  {
  }

  /** The digits of a number, collected by repeated division by ten. */
  method CollectDigits(str: array<wchar>, m: nat) returns (p1: nat)
    requires m < TWO64 && str.Length == 40
    modifies str
    ensures m > 0 ==> p1 == |DecOf(m)| <= 20
    ensures m > 0 ==> forall i :: 0 <= i < p1 ==> str[i] == DecOf(m)[p1 - 1 - i]
  {
    DigitCounts(m);
    ghost var ds := Digits(m, 10);
    p1 := 0;
    var rest: nat := m;
    while rest != 0
      invariant 0 <= p1 <= |ds| && ds[p1..] == Digits(rest, 10) && rest < TWO64
      invariant forall i :: 0 <= i < p1 ==> str[i] == DecChar(ds[i])
      decreases rest
    {
      Shrinks(rest, 10);
      assert ds[p1] == ds[p1..][0] == rest % 10 && ds[p1 + 1..] == ds[p1..][1..];
      var r;
      rest, r := Division.DivU64x32(rest, 10);
      str[p1] := DecChar(r);
      p1 := p1 + 1;
    }
  }
}
