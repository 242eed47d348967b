/**
  * What the items of a format put on the page, told by the characters that one
  * writes in a format and by what the printed text denotes.
  */
module PrintMeaning {
  import opened Machine
  import opened Seqs
  import opened Strings
  import opened Numbers
  import opened NumberParsing
  import opened PrintSpec
  import opened PrintInk
  import Printing

  /** A text in 16-bit units. */
  function Wide(s: string): (t: Text)
    requires forall i :: 0 <= i < |s| ==> 0 < s[i] as int < 0x80
    ensures |t| == |s| && forall i :: 0 <= i < |s| ==> t[i] == s[i] as int
  {
    seq(|s|, i requires 0 <= i < |s| => s[i] as int)
  }

  function Unit(c: char): (u: wchar)
    requires 0 < c as int < 0x80
    ensures u > 0
  {
    c as int
  }

  // ---------- words as arguments ----------

  /** `v` is what a signed variable of 32 or 64 bits holds when a word was stored there. */
  predicate SignedWord(n: nat, v: int, long: bool) {
    if long then -0x8000_0000_0000_0000 <= v < 0x8000_0000_0000_0000 && (n - v) % 0x1_0000_0000_0000_0000 == 0
    else -0x8000_0000 <= v < 0x8000_0000 && (n - v) % 0x1_0000_0000 == 0
  }

  /** The same without a sign. */
  predicate UnsignedWord(n: nat, v: nat, long: bool) {
    if long then v < 0x1_0000_0000_0000_0000 && (n - v) % 0x1_0000_0000_0000_0000 == 0
    else v < 0x1_0000_0000 && (n - v) % 0x1_0000_0000 == 0
  }

  lemma ReadSigned(n: nat, v: int, long: bool)
    ensures Signed(n, long) == v <==> SignedWord(n, v, long)
  {
  }

  lemma ReadUnsigned(n: nat, v: nat, long: bool)
    ensures Unsigned(n, long) == v <==> UnsignedWord(n, v, long)
  {
  }

  // ---------- conversions ----------

  predicate Shows(a: Action, g: Flags, text: seq<wchar>, rest: seq<Arg>) {
    a.Show? && a.shown == g && a.text == text && a.rest == rest
  }

  /** The conversion takes the first argument and shows a text under some flags. */
  ghost predicate Converts(c: wchar, f: Flags, arg: Arg, g: Flags, text: seq<wchar>) {
    forall args: seq<Arg>, colours: Colours :: args != [] && args[0] == arg ==>
      Shows(Meaning(c, f, args, colours), g, text, args[1..])
  }

  lemma ConvertsWord(c: wchar, f: Flags, arg: Arg, g: Flags, text: Text)
    requires c in TAKES_ARGUMENT && forall rest: seq<Arg> :: WithArgument(c, f, arg, rest) == Show(g, text, rest)
    ensures Converts(c, f, arg, g, text)
  {
    hide WithArgument;
  }

  /** %d: the word as a signed number of its width. */
  lemma ShowsDecimal(f: Flags, n: nat, v: int) returns (text: Text)
    requires SignedWord(n, v, f.long)
    ensures Converts(Unit('d'), f, Word(n), f, text) && SpellsSigned(text, v, f.comma) && |text| <= 27
  {
    hide Signed, SpellsSigned, SignedOf;
    ReadSigned(n, v, f.long);
    text := DecimalText(v, f.comma);
    SignedSpelled(v, f.comma);
    ShortNumbers(v, f.comma);
    ConvertsWord(Unit('d'), f, Word(n), f, text);
  }

  /** %u: the word as an unsigned number of its width if and only if that is below 2^63; larger ones get a sign. */
  lemma ShowsUnsigned(f: Flags, n: nat, v: nat) returns (text: Text)
    requires UnsignedWord(n, v, f.long)
    ensures Converts(Unit('u'), f, Word(n), f, text)
    ensures SpellsDecimal(text, v, f.comma) <==> v < 0x8000_0000_0000_0000
    ensures v >= 0x8000_0000_0000_0000 ==> SpellsSigned(text, v - 0x1_0000_0000_0000_0000, f.comma)
  {
    hide Unsigned, SignedOf, Denoted;
    ReadUnsigned(n, v, f.long);
    text := DecimalText(Reinterpreted(v), f.comma);
    SignedSpelled(Reinterpreted(v), f.comma);
    ConvertsWord(Unit('u'), f, Word(n), f, text);
  }

  /** %x: the word in hexadecimal. */
  lemma ShowsHex(f: Flags, n: nat, v: nat) returns (text: Text)
    requires UnsignedWord(n, v, f.long)
    ensures Converts(Unit('x'), f, Word(n), f, text) && SpellsHex(text, v)
    ensures |text| <= if f.long then 16 else 8
  {
    hide Unsigned, SpellsHex, HexOf;
    ReadUnsigned(n, v, f.long);
    text := HexadecimalText(v);
    HexSpelled(v);
    ShortNumbers(v, false);
    ConvertsWord(Unit('x'), f, Word(n), f, text);
  }

  /** %X: the same, with zeros up to 8 or 16 digits whatever width was asked for. */
  lemma ShowsFullHex(f: Flags, n: nat, v: nat) returns (text: Text)
    requires UnsignedWord(n, v, f.long)
    ensures Converts(Unit('X'), f, Word(n), f.(width := if f.long then 16 else 8, pad := Unit('0')), text)
    ensures SpellsHex(text, v) && |text| <= if f.long then 16 else 8
  {
    hide Unsigned, SpellsHex, HexOf;
    ReadUnsigned(n, v, f.long);
    text := HexadecimalText(v);
    HexSpelled(v);
    ShortNumbers(v, false);
    ConvertsWord(Unit('X'), f, Word(n), f.(width := if f.long then 16 else 8, pad := ZERO), text);
  }

  /** %p: 0x and the word in hexadecimal; the whole pointer if and only if it is below 2^32 or the item is long. */
  lemma ShowsPointer(f: Flags, n: nat, v: nat) returns (text: Text)
    requires UnsignedWord(n, v, f.long) && n < 0x1_0000_0000_0000_0000
    ensures Converts(Unit('p'), f, Word(n), f.(width := 0, pad := Unit('0')), text)
    ensures |text| > 2 && text[0] == Unit('0') && text[1] == Unit('x') && SpellsHex(text[2..], v)
    ensures SpellsHex(text[2..], n) <==> f.long || n < 0x1_0000_0000
  {
    hide Unsigned, HexOf, Denoted;
    ReadUnsigned(n, v, f.long);
    text := PointerText(v);
    assert text[2..] == HexOf(v);
    HexSpelled(v);
    ConvertsWord(Unit('p'), f, Word(n), f.(width := 0, pad := ZERO), text);
  }

  /** %c: the low 16 bits as a character; a zero shows nothing. */
  lemma ShowsChar(f: Flags, n: nat, c: wchar)
    requires (n - c) % 0x1_0000 == 0
    ensures Converts(Unit('c'), f, Word(n), f, if c == 0 then [] else [c])
  {
    assert n % 0x1_0000 == c;
    var text: Text := if c == 0 then [] else [c];
    ConvertsWord(Unit('c'), f, Word(n), f, text);
  }

  /** %s and %a: the string, or (null). */
  lemma ShowsString(f: Flags, t: Text)
    ensures Converts(Unit('s'), f, Pointer(Some(t)), f, t) && Converts(Unit('a'), f, Pointer(Some(t)), f, t)
    ensures Converts(Unit('s'), f, Pointer(None), f, Wide("(null)"))
    ensures Converts(Unit('a'), f, Pointer(None), f, Wide("(null)"))
  {
    assert Wide("(null)") == NULL_TEXT;
    ConvertsWord(Unit('s'), f, Pointer(Some(t)), f, t);
    ConvertsWord(Unit('a'), f, Pointer(Some(t)), f, t);
    ConvertsWord(Unit('s'), f, Pointer(None), f, Wide("(null)"));
    ConvertsWord(Unit('a'), f, Pointer(None), f, Wide("(null)"));
  }

  /** Text from another routine: as much as 99 units hold. */
  lemma ShowsGiven(f: Flags, t: Text, c: wchar)
    requires c in Wide("Dfgrt")
    ensures Converts(c, f, Given(t), f, t[..if |t| <= 99 then |t| else 99])
  {
    var n := if |t| <= 99 then |t| else 99;
    assert t[..|t|] == t;
    ConvertsWord(c, f, Given(t), f, Prefix(t, n));
  }

  // ---------- padding ----------

  /** The length of what an item shows of its text, and of what is at least shown. */
  function ShownLength(f: Flags, text: Text): nat {
    if |text| <= f.field then |text| else f.field
  }

  function WantedLength(f: Flags, text: Text): nat {
    if ShownLength(f, text) <= f.width then f.width else ShownLength(f, text)
  }

  /**
    * Every unit of a padded item: the text, cut to the field width; in front of it
    * padding up to the width; and spaces up to the field width, in front of all that
    * or, with the minus flag, behind it.
    */
  lemma PaddedUnits(f: Flags, text: Text, k: nat)
    requires k < |Padded(f, text)|
    ensures var p, len, width := Padded(f, text), ShownLength(f, text), WantedLength(f, text);
            && |p| >= width >= len
            && (f.padBefore ==>
                  p[k] == if k < |p| - width then Unit(' ')
                          else if k < |p| - len then f.pad else text[k - (|p| - len)])
            && (!f.padBefore ==>
                  p[k] == if k < width - len then f.pad
                          else if k < width then text[k - (width - len)] else Unit(' '))
  {
    hide Padded, ShownLength, WantedLength;
    if f.padBefore {
      UnitsInFront(f, text, k);
    } else {
      UnitsBehind(f, text, k);
    }
  }

  lemma UnitsInFront(f: Flags, text: Text, k: nat)
    requires f.padBefore && k < |Padded(f, text)|
    ensures var p, len, width := Padded(f, text), ShownLength(f, text), WantedLength(f, text);
            && |p| >= width >= len
            && p[k] == if k < |p| - width then Unit(' ')
                       else if k < |p| - len then f.pad else text[k - (|p| - len)]
  {
    hide Padded, ShownLength, WantedLength, Fill;
    var len, width := ShownLength(f, text), WantedLength(f, text);
    var n := PaddedInFront(f, text);
    InThree(Fill(SPACE, n), Fill(f.pad, width - len), text[..len], k);
    FilledWith(SPACE, n, k);
    FilledWith(f.pad, width - len, k - n);
  }

  lemma UnitsBehind(f: Flags, text: Text, k: nat)
    requires !f.padBefore && k < |Padded(f, text)|
    ensures var p, len, width := Padded(f, text), ShownLength(f, text), WantedLength(f, text);
            && |p| >= width >= len
            && p[k] == if k < width - len then f.pad
                       else if k < width then text[k - (width - len)] else Unit(' ')
  {
    hide Padded, ShownLength, WantedLength, Fill;
    var len, width := ShownLength(f, text), WantedLength(f, text);
    var n := PaddedBehind(f, text);
    InThree(Fill(f.pad, width - len), text[..len], Fill(SPACE, n), k);
    FilledWith(f.pad, width - len, k);
    FilledWith(SPACE, n, k - width);
  }

  lemma FilledWith(c: wchar, n: nat, k: int)
    ensures |Fill(c, n)| == n && (0 <= k < n ==> Fill(c, n)[k] == c)
  {
  }

  lemma PaddedInFront(f: Flags, text: Text) returns (n: nat)
    requires f.padBefore
    ensures var len, width := ShownLength(f, text), WantedLength(f, text);
            && len <= width && len <= |text|
            && Padded(f, text) == Fill(SPACE, n) + (Fill(f.pad, width - len) + text[..len])
  {
    hide Fill;
    var len, width := ShownLength(f, text), WantedLength(f, text);
    var field := if f.field == NO_WIDTH then len else f.field;
    n := if width < field then field - width else 0;
  }

  lemma PaddedBehind(f: Flags, text: Text) returns (n: nat)
    requires !f.padBefore
    ensures var len, width := ShownLength(f, text), WantedLength(f, text);
            && len <= width && len <= |text|
            && Padded(f, text) == Fill(f.pad, width - len) + (text[..len] + Fill(SPACE, n))
  {
    hide Fill;
    var len, width := ShownLength(f, text), WantedLength(f, text);
    var field := if f.field == NO_WIDTH then len else f.field;
    n := if width < field then field - width else 0;
    Assoc(Fill(f.pad, width - len), text[..len], Fill(SPACE, n));
  }

  lemma InThree(a: seq<wchar>, b: seq<wchar>, c: seq<wchar>, k: nat)
    requires k < |a| + |b| + |c|
    ensures (a + (b + c))[k] == if k < |a| then a[k] else if k < |a| + |b| then b[k - |a|] else c[k - |a| - |b|]
  {
  }

  // ---------- whole formats ----------

  /** Text without a percent sign is printed as it is. */
  lemma {:induction false} PlainText(t: Text, i: nat, args: seq<Arg>, colours: Colours)
    requires i <= |t| && Unit('%') !in t
    ensures Render(t, i, args, colours) == Some(t[i..])
    decreases |t| - i
  {
    if i == |t| {
      assert t[i..] == [];
    } else {
      assert t[i] in t;
      PlainText(t, i + 1, args, colours);
      assert [t[i]] + t[i + 1..] == t[i..];
    }
  }

  /** One conversion at the end of a format. */
  lemma LastItem(fmt: Text, f: Flags, c: wchar, arg: Arg, g: Flags, text: Text, colours: Colours)
    requires fmt != [] && fmt[|fmt| - 1] == c && !IsDigit(c) && Converts(c, f, arg, g, text)
    ensures RenderItem(fmt, |fmt| - 1, f, [arg], colours) == Some(Padded(g, text))
  {
    hide Meaning, Padded;
    var args := [arg];
    assert Shows(Meaning(c, f, args, colours), g, text, args[1..]);
    assert Render(fmt, |fmt|, [], colours) == Some([]);
    assert Padded(g, text) + [] == Padded(g, text);
  }

  lemma FirstItem(fmt: Text, args: seq<Arg>, colours: Colours)
    requires fmt != [] && fmt[0] == Unit('%')
    ensures Render(fmt, 0, args, colours) == RenderItem(fmt, 1, NO_FLAGS, args, colours)
  {
    hide RenderItem;
  }

  /** What a flag adds to the flags before it. */
  function WithFlag(f: Flags, c: wchar): Flags {
    if c == Unit(',') then f.(comma := true)
    else if c == Unit('l') then f.(long := true)
    else if c == Unit('-') then f.(padBefore := false)
    else if c == Unit('.') then f.(inField := true)
    else if c == Unit('0') then f.(pad := Unit('0'))
    else f
  }

  predicate IsFlag(c: wchar) {
    c == Unit(',') || c == Unit('l') || c == Unit('-') || c == Unit('.') || c == Unit('0')
  }

  lemma NextFlag(fmt: Text, i: nat, f: Flags, args: seq<Arg>, colours: Colours)
    requires i < |fmt| && IsFlag(fmt[i])
    ensures RenderItem(fmt, i, f, args, colours) == RenderItem(fmt, i + 1, WithFlag(f, fmt[i]), args, colours)
  {
    hide Padded, NumberEnd, NumberFrom;
  }

  /** A width of one digit. */
  lemma NextDigit(fmt: Text, i: nat, f: Flags, args: seq<Arg>, colours: Colours)
    requires i + 1 < |fmt| && IsDigit(fmt[i]) && fmt[i] != Unit('0') && !IsDigit(fmt[i + 1])
    ensures RenderItem(fmt, i, f, args, colours)
      == RenderItem(fmt, i + 1, f.SetWidth(fmt[i] - Unit('0')), args, colours)
  {
    OneDigit(fmt, i);
    hide Padded, NumberEnd, NumberFrom, Meaning, WithArgument;
  }

  lemma OneDigit(fmt: Text, i: nat)
    requires i + 1 < |fmt| && IsDigit(fmt[i]) && !IsDigit(fmt[i + 1])
    ensures NumberEnd(fmt, i + 1) == i + 1 && NumberFrom(fmt, i, 0) == fmt[i] - Unit('0')
  {
    assert NumberFrom(fmt, i, 0) == NumberFrom(fmt, i + 1, AddDigit(0, fmt[i])) == AddDigit(0, fmt[i]);
  }

  /** Without a width or a field width the text stands alone. */
  lemma NotPadded(f: Flags, text: Text)
    requires f.width == 0 && f.field == NO_WIDTH && |text| <= NO_WIDTH
    ensures Padded(f, text) == text
  {
    assert text[..|text|] == text;
    assert Fill(f.pad, 0) + text == text && Fill(SPACE, 0) + text == text && text + Fill(SPACE, 0) == text;
  }

  /** %d: a signed number of 32 bits, as one writes it. */
  lemma PrintsDecimal(n: nat, v: int, colours: Colours)
    requires SignedWord(n, v, false)
    ensures var r := Render(Wide("%d"), 0, [Word(n)], colours); r.Some? && SpellsSigned(r.value, v, false)
  {
    hide Meaning, Padded, SpellsSigned, RenderItem, Render, SignedWord;
    var fmt, f := Wide("%d"), NO_FLAGS;
    var t := ShowsDecimal(f, n, v);
    FirstItem(fmt, [Word(n)], colours);
    LastItem(fmt, f, Unit('d'), Word(n), f, t, colours);
    NotPadded(f, t);
  }

  /** %,ld: a signed number of 64 bits, with commas. */
  lemma PrintsCommas(n: nat, v: int, colours: Colours)
    requires SignedWord(n, v, true)
    ensures var r := Render(Wide("%,ld"), 0, [Word(n)], colours); r.Some? && SpellsSigned(r.value, v, true)
  {
    hide Meaning, Padded, SpellsSigned, RenderItem, Render, SignedWord;
    var fmt, f := Wide("%,ld"), NO_FLAGS.(comma := true, long := true);
    var t := ShowsDecimal(f, n, v);
    FirstItem(fmt, [Word(n)], colours);
    NextFlag(fmt, 1, NO_FLAGS, [Word(n)], colours);
    NextFlag(fmt, 2, NO_FLAGS.(comma := true), [Word(n)], colours);
    LastItem(fmt, f, Unit('d'), Word(n), f, t, colours);
    NotPadded(f, t);
  }

  /** A number in a field of eight digits. */
  predicate EightDigits(t: seq<wchar>, v: nat) {
    && |t| == 8 && (forall i :: 0 <= i < 8 ==> 0x30 <= t[i] <= 0x39 || 0x41 <= t[i] <= 0x46)
    && Denoted(t, 16) == v
  }

  /** %08x and %X: exactly eight hexadecimal digits that denote the word modulo 2^32. */
  lemma PrintsEightDigits(n: nat, v: nat, colours: Colours)
    requires UnsignedWord(n, v, false)
    ensures var r := Render(Wide("%08x"), 0, [Word(n)], colours); r.Some? && EightDigits(r.value, v)
    ensures var r := Render(Wide("%X"), 0, [Word(n)], colours); r.Some? && EightDigits(r.value, v)
  {
    hide Meaning, Padded, SpellsHex, EightDigits, RenderItem, Render, UnsignedWord;
    var zeros := NO_FLAGS.(pad := Unit('0'));
    var fmt, f := Wide("%08x"), zeros.(width := 8);
    var t := ShowsHex(f, n, v);
    FirstItem(fmt, [Word(n)], colours);
    NextFlag(fmt, 1, NO_FLAGS, [Word(n)], colours);
    NextDigit(fmt, 2, zeros, [Word(n)], colours);
    LastItem(fmt, f, Unit('x'), Word(n), f, t, colours);
    ZeroPadded(f, t, v);
    var fmt' := Wide("%X");
    var u := ShowsFullHex(NO_FLAGS, n, v);
    FirstItem(fmt', [Word(n)], colours);
    LastItem(fmt', NO_FLAGS, Unit('X'), Word(n), f, u, colours);
    ZeroPadded(f, u, v);
  }

  lemma ZeroPadded(f: Flags, t: Text, v: nat)
    requires f == NO_FLAGS.(pad := Unit('0'), width := 8) && SpellsHex(t, v) && |t| <= 8
    ensures EightDigits(Padded(f, t), v)
  {
    hide Denoted;
    var zeros := Fill(Unit('0'), 8 - |t|);
    assert Padded(f, t) == zeros + t by {
      assert t[..|t|] == t && Fill(SPACE, 0) + (zeros + t) == zeros + t;
    }
    hide Padded;
    LeadingZeros(zeros, t, 16);
  }

  /** %6d: at least six units, the number at the right behind spaces. */
  lemma PrintsAligned(n: nat, v: int, colours: Colours) returns (t: seq<wchar>)
    requires SignedWord(n, v, false)
    ensures SpellsSigned(t, v, false)
    ensures Render(Wide("%6d"), 0, [Word(n)], colours)
      == Some(seq(if |t| < 6 then 6 - |t| else 0, _ => Unit(' ')) + t)
  {
    hide Meaning, Padded, SpellsSigned, RenderItem, Render, SignedWord;
    var fmt, f := Wide("%6d"), NO_FLAGS.(width := 6);
    var u := ShowsDecimal(f, n, v);
    t := u;
    FirstItem(fmt, [Word(n)], colours);
    NextDigit(fmt, 1, NO_FLAGS, [Word(n)], colours);
    LastItem(fmt, f, Unit('d'), Word(n), f, u, colours);
    InAnyWidth(f, u, 6);
  }

  /** %.3s and %-.3s: exactly three units, the string cut, or with spaces in front or behind. */
  lemma PrintsField(t: Text, colours: Colours)
    ensures var spaces := seq(if |t| < 3 then 3 - |t| else 0, _ => Unit(' '));
            var cut := t[..if |t| < 3 then |t| else 3];
            && Render(Wide("%.3s"), 0, [Pointer(Some(t))], colours) == Some(spaces + cut)
            && Render(Wide("%-.3s"), 0, [Pointer(Some(t))], colours) == Some(cut + spaces)
  {
    hide Meaning, Padded, RenderItem, Render;
    var args := [Pointer(Some(t))];
    ShowsString(NO_FLAGS.(inField := true, field := 3), t);
    ShowsString(NO_FLAGS.(padBefore := false, inField := true, field := 3), t);
    var fmt := Wide("%.3s");
    FirstItem(fmt, args, colours);
    NextFlag(fmt, 1, NO_FLAGS, args, colours);
    NextDigit(fmt, 2, NO_FLAGS.(inField := true), args, colours);
    LastItem(fmt, NO_FLAGS.(inField := true, field := 3), Unit('s'), args[0],
             NO_FLAGS.(inField := true, field := 3), t, colours);
    var left := NO_FLAGS.(padBefore := false);
    var fmt' := Wide("%-.3s");
    FirstItem(fmt', args, colours);
    NextFlag(fmt', 1, NO_FLAGS, args, colours);
    NextFlag(fmt', 2, left, args, colours);
    NextDigit(fmt', 3, left.(inField := true), args, colours);
    LastItem(fmt', left.(inField := true, field := 3), Unit('s'), args[0],
             left.(inField := true, field := 3), t, colours);
    InField(t);
  }

  lemma InField(t: Text)
    ensures var spaces := seq(if |t| < 3 then 3 - |t| else 0, _ => Unit(' '));
            var cut := t[..if |t| < 3 then |t| else 3];
            && Padded(NO_FLAGS.(inField := true, field := 3), t) == spaces + cut
            && Padded(NO_FLAGS.(padBefore := false, inField := true, field := 3), t) == cut + spaces
  {
    hide Fill;
    if |t| < 3 {
      SpacesFilled(3 - |t|);
      NoPadding(t[..|t|], SPACE);
    } else {
      SpacesFilled(0);
      NoPadding(t[..3], SPACE);
    }
  }

  lemma SpacesFilled(n: nat)
    ensures Fill(SPACE, n) == seq(n, _ => Unit(' '))
  {
  }

  /** %*x: the width is an argument, in front of the number. */
  lemma PrintsWidthArgument(w: nat, n: nat, v: nat, colours: Colours) returns (t: seq<wchar>)
    requires UnsignedWord(n, v, false) && w < TWO64
    ensures SpellsHex(t, v)
    ensures Render(Wide("%*x"), 0, [Word(w), Word(n)], colours)
      == Some(seq(if |t| < w then w - |t| else 0, _ => Unit(' ')) + t)
  {
    hide Padded, SpellsHex, UnsignedWord;
    var fmt, f := Wide("%*x"), NO_FLAGS.(width := w);
    var u := ShowsHex(f, n, v);
    t := u;
    StarTaken(fmt, w, n, colours);
    hide RenderItem, Render, Meaning;
    LastItem(fmt, f, Unit('x'), Word(n), f, u, colours);
    InAnyWidth(f, u, w);
  }

  lemma StarMeans(f: Flags, args: seq<Arg>, w: nat, colours: Colours)
    requires args != [] && args[0] == Word(w) && w < TWO64
    ensures Meaning(Unit('*'), f, args, colours) == More(f.SetWidth(w), args[1..])
  {
  }

  lemma StarTaken(fmt: Text, w: nat, n: nat, colours: Colours)
    requires fmt == Wide("%*x") && w < TWO64
    ensures Render(fmt, 0, [Word(w), Word(n)], colours)
      == RenderItem(fmt, 2, NO_FLAGS.(width := w), [Word(n)], colours)
  {
    hide Meaning, Padded, Render;
    var args := [Word(w), Word(n)];
    FirstItem(fmt, args, colours);
    assert args[1..] == [Word(n)];
    StarMeans(NO_FLAGS, args, w, colours);
  }

  lemma InAnyWidth(f: Flags, t: Text, w: nat)
    requires f == NO_FLAGS.(width := w) && |t| <= NO_WIDTH
    ensures Padded(f, t) == seq(if |t| < w then w - |t| else 0, _ => Unit(' ')) + t
  {
    assert t[..|t|] == t;
    var n := if |t| < w then w - |t| else 0;
    assert Fill(SPACE, 0) + (Fill(SPACE, n) + t) == Fill(SPACE, n) + t;
    assert Fill(SPACE, n) == seq(n, _ => Unit(' '));
  }

  /** %% is a percent sign, and a conversion that does not exist a question mark. */
  lemma PrintsSigns(args: seq<Arg>, colours: Colours)
    ensures Render(Wide("%%"), 0, args, colours) == Some([Unit('%')])
    ensures Render(Wide("%q"), 0, args, colours) == Some([Unit('?')])
  {
    var percent, question: Text := [0x25], [0x3F];
    NotPadded(NO_FLAGS, percent);
    NotPadded(NO_FLAGS, question);
    FirstItem(Wide("%%"), args, colours);
    FirstItem(Wide("%q"), args, colours);
    assert Meaning(Wide("%%")[1], NO_FLAGS, args, colours) == Show(NO_FLAGS, percent, args);
    assert Meaning(Wide("%q")[1], NO_FLAGS, args, colours) == Show(NO_FLAGS, question, args);
    hide Meaning, Padded;
    assert percent + [] == percent && question + [] == question;
  }

  // ---------- line ends ----------

  /** A newline gets a carriage return in front, every other unit stays alone. */
  lemma LineEnds(c: wchar)
    ensures Expand([c]) == if c == 0x0A then [0x0D, 0x0A] else [c]
  {
    assert [c][..0] == [];
    assert [] + ExpandChar(c) == ExpandChar(c);
  }

  // ---------- colours ----------

  lemma {:induction false} PlainInk(t: Text, i: nat, args: seq<Arg>, colours: Colours, attr: nat)
    requires i <= |t| && forall k :: i <= k < |t| ==> t[k] != Unit('%')
    ensures Ink(t, i, args, colours, attr) == Printing.Same(attr, |Expand(t[i..])|)
    decreases |t| - i
  {
    hide ItemInk, Expand, ExpandChar, Printing.Same;
    if i == |t| {
      assert t[i..] == [];
      NothingInked(attr);
    } else {
      PlainInk(t, i + 1, args, colours, attr);
      assert t[i..] == [t[i]] + t[i + 1..];
      UnitInked(t[i], t[i + 1..], attr);
    }
  }

  lemma NothingInked(attr: nat)
    ensures Printing.Same(attr, |Expand([])|) == []
  {
  }

  lemma UnitInked(c: wchar, t: seq<wchar>, attr: nat)
    ensures Printing.Same(attr, |Expand([c] + t)|)
      == Printing.Same(attr, |ExpandChar(c)|) + Printing.Same(attr, |Expand(t)|)
  {
    Printing.ExpandConcat([c], t);
    LineEnds(c);
    hide Expand;
  }

  /** %E, %H and %N: the text behind is in the colour for errors, for highlights, or the normal one. */
  lemma ColourForTheRest(t: Text, args: seq<Arg>, colours: Colours, attr: nat)
    requires Unit('%') !in t && colours.error > 0 && colours.highlight > 0 && colours.normal > 0
    ensures Ink(Wide("%E") + t, 0, args, colours, attr) == Printing.Same(colours.error, |Expand(t)|)
    ensures Ink(Wide("%H") + t, 0, args, colours, attr) == Printing.Same(colours.highlight, |Expand(t)|)
    ensures Ink(Wide("%N") + t, 0, args, colours, attr) == Printing.Same(colours.normal, |Expand(t)|)
  {
    InkBehind(Wide("%E") + t, t, args, colours, attr, colours.error);
    InkBehind(Wide("%H") + t, t, args, colours, attr, colours.highlight);
    InkBehind(Wide("%N") + t, t, args, colours, attr, colours.normal);
  }

  lemma InkBehind(fmt: Text, t: Text, args: seq<Arg>, colours: Colours, attr: nat, a: nat)
    requires |fmt| == |t| + 2 && fmt[2..] == t && fmt[0] == Unit('%') && Unit('%') !in t && a > 0
    requires !IsDigit(fmt[1]) && Meaning(fmt[1], NO_FLAGS, args, colours) == Colour(a)
    ensures Ink(fmt, 0, args, colours, attr) == Printing.Same(a, |Expand(t)|)
  {
    hide Meaning, Padded, Expand;
    assert Ink(fmt, 0, args, colours, attr) == ItemInk(fmt, 1, NO_FLAGS, args, colours, attr, 0);
    forall k | 2 <= k < |fmt| ensures fmt[k] != Unit('%') {
      assert fmt[k] == t[k - 2];
    }
    PlainInk(fmt, 2, args, colours, a);
  }

  /** %es, %hs and %ns: the string alone is in that colour. */
  lemma ColourForTheField(arg: Arg, colours: Colours)
    requires arg.Pointer?
    ensures var fmt := Wide("%es");
            Shown(fmt, 1, NO_FLAGS, [arg], colours)
            && FieldAt(fmt, 1, NO_FLAGS, [arg], colours).tints == [colours.error]
    ensures var fmt := Wide("%hs");
            Shown(fmt, 1, NO_FLAGS, [arg], colours)
            && FieldAt(fmt, 1, NO_FLAGS, [arg], colours).tints == [colours.highlight]
    ensures var fmt := Wide("%ns");
            Shown(fmt, 1, NO_FLAGS, [arg], colours)
            && FieldAt(fmt, 1, NO_FLAGS, [arg], colours).tints == [colours.normal]
  {
    Tinted(Wide("%es"), arg, colours, colours.error);
    Tinted(Wide("%hs"), arg, colours, colours.highlight);
    Tinted(Wide("%ns"), arg, colours, colours.normal);
  }

  lemma Tinted(fmt: Text, arg: Arg, colours: Colours, a: nat)
    requires |fmt| == 3 && fmt[2] == Unit('s') && arg.Pointer? && !IsDigit(fmt[1])
    requires Meaning(fmt[1], NO_FLAGS, [arg], colours) == Tint(a)
    ensures Shown(fmt, 1, NO_FLAGS, [arg], colours)
    ensures FieldAt(fmt, 1, NO_FLAGS, [arg], colours).tints == [a]
  {
    assert Meaning(fmt[2], NO_FLAGS, [arg], colours).Show?;
    hide Meaning, Padded;
    assert Shown(fmt, 2, NO_FLAGS, [arg], colours);
    assert FieldAt(fmt, 2, NO_FLAGS, [arg], colours).tints == [];
  }
}
