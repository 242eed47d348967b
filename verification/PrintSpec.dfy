/**
  * What a format string and its arguments say, without any buffering: the
  * reference for the print engine.
  */
module PrintSpec {
  import opened Machine
  import opened Strings
  import opened Numbers

  const NEWLINE: wchar := 0x0A
  const RETURN: wchar := 0x0D
  const PERCENT: wchar := 0x25

  /** (UINTN) -1: no field width was given. */
  const NO_WIDTH := TWO64 - 1

  /**
    * A variadic argument: a machine word, a string pointer (possibly null), or an
    * object that another routine turns into text.
    */
  datatype Arg = Word(n: nat) | Pointer(s: Option<Text>) | Given(text: Text)

  /** The three colours that the format can ask for; zero when the output has none. */
  datatype Colours = Colours(normal: nat, highlight: nat, error: nat)

  /** A character to pad with. */
  type Filler = x: int | 0 < x < 0x1_0000 witness 0x20

  /** What the flags of one item have set so far. */
  datatype Flags = Flags(width: nat, field: nat, inField: bool, pad: Filler, padBefore: bool, comma: bool, long: bool) {

    function SetWidth(n: nat): Flags {
      if inField then this.(field := n) else this.(width := n)
    }
  }

  const NO_FLAGS := Flags(0, NO_WIDTH, false, SPACE, true, false, false)

  /** What one character of an item does. */
  datatype Action =
    | Broken
    | More(flags: Flags, args: seq<Arg>)
    | Show(shown: Flags, text: Text, rest: seq<Arg>)
    | Tint(colour: nat)
    | Colour(colour: nat)

  const NULL_TEXT: Text := [0x28, 0x6E, 0x75, 0x6C, 0x6C, 0x29]

  function Signed(n: nat, long: bool): (v: int)
    ensures -TWO63 <= v < TWO63
  {
    if long then (if n % TWO64 < TWO63 then n % TWO64 else n % TWO64 - TWO64)
    else (if n % 0x1_0000_0000 < 0x8000_0000 then n % 0x1_0000_0000 else n % 0x1_0000_0000 - 0x1_0000_0000)
  }

  function Unsigned(n: nat, long: bool): (v: nat)
    ensures v < TWO64
  {
    if long then n % TWO64 else n % 0x1_0000_0000
  }

  /** An unsigned argument handed to the signed printer. */
  function Reinterpreted(v: nat): (w: int)
    requires v < TWO64
    ensures -TWO63 <= w < TWO63
  {
    if v < TWO63 then v else v - TWO64
  }

  predicate IsDigit(c: wchar) {
    0x30 <= c <= 0x39
  }

  /** The meaning of one character of an item, digits 1 to 9 apart. */
  function Meaning(c: wchar, f: Flags, args: seq<Arg>, colours: Colours): (a: Action) {
    if c == PERCENT then Show(f, [PERCENT], args)
    else if c == 0x2C then More(f.(comma := true), args)
    else if c == 0x2D then More(f.(padBefore := false), args)
    else if c == 0x2E then More(f.(inField := true), args)
    else if c == 0x30 then More(f.(pad := ZERO), args)
    else if c == 0x6C then More(f.(long := true), args)
    else if c == 0x65 then Tint(colours.error)
    else if c == 0x68 then Tint(colours.highlight)
    else if c == 0x6E then Tint(colours.normal)
    else if c == 0x45 then Colour(colours.error)
    else if c == 0x48 then Colour(colours.highlight)
    else if c == 0x4E then Colour(colours.normal)
    else if c !in TAKES_ARGUMENT then Show(f, [0x3F], args)
    else if args == [] then Broken
    else WithArgument(c, f, args[0], args[1..])
  }

  /** * D X a c d f g p r s t u x */
  const TAKES_ARGUMENT: set<wchar> :=
    {0x2A, 0x44, 0x58, 0x61, 0x63, 0x64, 0x66, 0x67, 0x70, 0x72, 0x73, 0x74, 0x75, 0x78}

  const STRINGS: set<wchar> := {0x61, 0x73}
  const OBJECTS: set<wchar> := {0x44, 0x66, 0x67, 0x72, 0x74}

  /** The scratch buffer of an item keeps 99 characters and a terminator. */
  function Clipped(t: Text): (r: Text)
    ensures |r| <= 99
  {
    if |t| <= 99 then t else Prefix(t, 99)
  }

  function Prefix(t: Text, n: nat): (r: Text)
    requires n <= |t|
  {
    t[..n]
  }

  function WithArgument(c: wchar, f: Flags, a: Arg, rest: seq<Arg>): Action {
    match a
    case Pointer(s) =>
      if c !in STRINGS then Broken
      else Show(f, if s.None? then NULL_TEXT else s.value, rest)
    case Given(t) =>
      if c !in OBJECTS then Broken else Show(f, Clipped(t), rest)
    case Word(n) =>
      if c == 0x2A then More(f.SetWidth(n % TWO64), rest)
      else if c == 0x63 then Show(f, CharText(n % 0x1_0000), rest)
      else if c == 0x64 then Show(f, DecimalText(Signed(n, f.long), f.comma), rest)
      else if c == 0x75 then Show(f, DecimalText(Reinterpreted(Unsigned(n, f.long)), f.comma), rest)
      else if c == 0x78 then Show(f, HexadecimalText(Unsigned(n, f.long)), rest)
      else if c == 0x58 then
        Show(f.(width := if f.long then 16 else 8, pad := ZERO), HexadecimalText(Unsigned(n, f.long)), rest)
      else if c == 0x70 then Show(f.(width := 0, pad := ZERO), PointerText(Unsigned(n, f.long)), rest)
      else Broken
  }

  function CharText(c: wchar): Text {
    if c == 0 then [] else [c]
  }

  function DecimalText(v: int, comma: bool): Text {
    SignedText(v, comma);
    SignedOf(v, comma)
  }

  function HexadecimalText(v: nat): Text {
    HexadecimalNoNul(v);
    HexOf(v)
  }

  function PointerText(v: nat): Text {
    HexadecimalNoNul(v);
    [ZERO, 0x78] + HexOf(v)
  }

  lemma SignedText(v: int, comma: bool)
    ensures NoNul(SignedOf(v, comma))
  {
    hide Grouping, DecOf;
    DecimalNoNul(Magnitude(v));
    GroupingNoNul(DecOf(Magnitude(v)), comma);
  }

  lemma DecimalNoNul(v: nat)
    ensures NoNul(DecOf(v))
  {
    hide Digits;
    if v != 0 {
      var ds := Digits(v, 10);
      assert forall i :: 0 <= i < |ds| ==> DecText(ds)[i] == DecChar(ds[|ds| - 1 - i]);
    }
  }

  lemma GroupingNoNul(t: seq<wchar>, comma: bool)
    requires NoNul(t)
    ensures NoNul(Grouping(t, true, comma))
  {
    hide Grouped;
  }

  lemma HexadecimalNoNul(v: nat)
    ensures NoNul(HexOf(v))
  {
    hide Digits;
    if v != 0 {
      var ds := Digits(v, 16);
      assert forall i :: 0 <= i < |ds| ==> HexText(ds)[i] == HexChar(ds[|ds| - 1 - i]);
    }
  }

  // ---------- items ----------

  function Fill(c: wchar, n: nat): seq<wchar> {
    seq(n, _ => c)
  }

  /**
    * An item on the page: the text cut to the field width, padded in front to the
    * width, and spaces up to the field width on the side that the flags ask for.
    */
  function Padded(f: Flags, text: Text): seq<wchar> {
    var len := if |text| <= f.field then |text| else f.field;
    var field := if f.field == NO_WIDTH then len else f.field;
    var width := if len > f.width then len else f.width;
    var spaces := Fill(SPACE, if width < field then field - width else 0);
    var body := Fill(f.pad, width - len) + text[..len];
    if f.padBefore then spaces + body else body + spaces
  }

  /** The width of a padded item is the largest of its text, its width and its field width. */
  lemma PaddedLength(f: Flags, text: Text)
    ensures var len := if |text| <= f.field then |text| else f.field;
            var field := if f.field == NO_WIDTH then len else f.field;
            |Padded(f, text)|
            == if f.width <= field && len <= field then field else if len <= f.width then f.width else len
  {
  }

  /**
    * The minus flag moves only the spaces of the field width to the end.  The
    * padding to the plain width stays in front, so that the text stands at the left
    * exactly when it fills the width by itself or cannot be told from the padding.
    */
  lemma LeftJustified(f: Flags, text: Text)
    requires !f.padBefore
    ensures var len := if |text| <= f.field then |text| else f.field;
            text[..len] <= Padded(f, text)
            <==> f.width <= len || forall i :: 0 <= i < len ==> text[i] == f.pad
  {
    hide Fill;
    var len := if |text| <= f.field then |text| else f.field;
    var field := if f.field == NO_WIDTH then len else f.field;
    if f.width > len {
      BehindPadding(text[..len], f.pad, f.width - len, Fill(SPACE, if f.width < field then field - f.width else 0));
    } else {
      NoPadding(text[..len], f.pad);
    }
  }

  lemma NoPadding(text: seq<wchar>, pad: wchar)
    ensures Fill(pad, 0) + text == text
  {
  }

  /** A text behind padding starts at the left only if it is all padding. */
  lemma BehindPadding(text: seq<wchar>, pad: wchar, n: nat, rest: seq<wchar>)
    requires n > 0
    ensures text <= (Fill(pad, n) + text) + rest <==> forall i :: 0 <= i < |text| ==> text[i] == pad
  {
    var shown := (Fill(pad, n) + text) + rest;
    assert forall k :: 0 <= k < |text| ==> shown[k] == if k < n then pad else text[k - n];
    if text <= shown {
      forall i | 0 <= i < |text|
        ensures text[i] == pad
      {
        PaddingRepeats(text, shown, pad, n, i);
      }
    }
  }

  /** A text that starts with padding and goes on with itself is all padding. */
  lemma {:induction false} PaddingRepeats(text: seq<wchar>, shown: seq<wchar>, pad: wchar, n: nat, i: nat)
    requires i < |text| && 0 < n && text <= shown
    requires forall k :: 0 <= k < |text| ==> shown[k] == if k < n then pad else text[k - n]
    ensures text[i] == pad
  {
    assert text[i] == shown[i];
    if i >= n {
      PaddingRepeats(text, shown, pad, n, i - n);
    }
  }

  /** %-3s and a short text: the text ends up on the right. */
  lemma MinusDoesNotJustify()
    ensures var text: Text := [0x61];
            Padded(NO_FLAGS.(width := 3, padBefore := false), text) == [SPACE, SPACE, 0x61]
  {
    var f := NO_FLAGS.(width := 3, padBefore := false);
    assert Fill(SPACE, 2) == [SPACE, SPACE];
  }

  /** The end of the run of digits at `i`, and the number it denotes (64 bits). */
  function NumberEnd(fmt: Text, i: nat): (j: nat)
    requires i <= |fmt|
    ensures i <= j <= |fmt|
    decreases |fmt| - i
  {
    if i < |fmt| && IsDigit(fmt[i]) then NumberEnd(fmt, i + 1) else i
  }

  /** One more digit in 64 bits. */
  function AddDigit(n: nat, c: wchar): nat
    requires IsDigit(c)
  {
    (n * 10 + c - 0x30) % TWO64
  }

  function NumberFrom(fmt: Text, i: nat, n: nat): nat
    requires i <= |fmt|
    decreases |fmt| - i
  {
    if i < |fmt| && IsDigit(fmt[i]) then NumberFrom(fmt, i + 1, AddDigit(n, fmt[i])) else n
  }

  /** The plain text of the format from `i` on; none if an item is incomplete or an argument does not fit. */
  function Render(fmt: Text, i: nat, args: seq<Arg>, colours: Colours): Option<seq<wchar>>
    requires i <= |fmt|
    decreases |fmt| - i, 1
  {
    if i == |fmt| then Some([])
    else if fmt[i] == PERCENT then RenderItem(fmt, i + 1, NO_FLAGS, args, colours)
    else Prepend([fmt[i]], Render(fmt, i + 1, args, colours))
  }

  function Prepend(t: seq<wchar>, r: Option<seq<wchar>>): Option<seq<wchar>> {
    if r.None? then None else Some(t + r.value)
  }

  function RenderItem(fmt: Text, i: nat, f: Flags, args: seq<Arg>, colours: Colours): Option<seq<wchar>>
    requires i <= |fmt|
    decreases |fmt| - i, 0
  {
    if i == |fmt| then None
    else if IsDigit(fmt[i]) && fmt[i] != ZERO then
      RenderItem(fmt, NumberEnd(fmt, i + 1), f.SetWidth(NumberFrom(fmt, i, 0)), args, colours)
    else match Meaning(fmt[i], f, args, colours)
      case Broken => None
      case More(f', args') => RenderItem(fmt, i + 1, f', args', colours)
      case Tint(_) => RenderItem(fmt, i + 1, f, args, colours)
      case Colour(a) => if a == 0 then RenderItem(fmt, i + 1, f, args, colours) else Render(fmt, i + 1, args, colours)
      case Show(f', text, args') => Prepend(Padded(f', text), Render(fmt, i + 1, args', colours))
  }

  // ---------- line ends ----------

  /** Every newline gets a carriage return in front. */
  function Expand(t: seq<wchar>): seq<wchar> {
    if t == [] then [] else Expand(t[..|t| - 1]) + ExpandChar(t[|t| - 1])
  }

  function ExpandChar(c: wchar): seq<wchar> {
    if c == NEWLINE then [RETURN, NEWLINE] else [c]
  }
}
