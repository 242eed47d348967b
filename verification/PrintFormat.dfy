/**
  * The format interpreter on top of the staged output: items are parsed character
  * by character, converted in a scratch buffer and printed with their padding.
  */
module PrintFormat {
  import opened Machine
  import opened Seqs
  import opened Strings
  import opened Numbers
  import NumberParsing
  import opened PrintSpec
  import opened Printing
  import opened PrintInk

  // ---------- conversions ----------

  method DecimalString(v: int, comma: bool) returns (t: Text)
    requires -TWO63 <= v < TWO63
    ensures t == DecimalText(v, comma)
  {
    hide SignedOf;
    SignedText(v, comma);
    var scratch := new wchar[SCRATCH_SIZE];
    ValueToString(scratch, 0, comma, v);
    t := ReadString(scratch, 0, SignedOf(v, comma));
  }

  method HexadecimalString(v: nat) returns (t: Text)
    requires v < TWO64
    ensures t == HexadecimalText(v)
  {
    hide HexOf;
    HexadecimalNoNul(v);
    var scratch := new wchar[SCRATCH_SIZE];
    ValueToHex(scratch, 0, v);
    t := ReadString(scratch, 0, HexOf(v));
  }

  /** The prefix is put in front after the digits were printed. */
  method PointerString(v: nat) returns (t: Text)
    requires v < TWO64
    ensures t == PointerText(v)
  {
    hide HexOf;
    HexadecimalNoNul(v);
    var scratch := new wchar[SCRATCH_SIZE];
    ValueToHex(scratch, 2, v);
    scratch[0] := ZERO;
    scratch[1] := 0x78;
    t := ReadString(scratch, 0, [ZERO, 0x78] + HexOf(v));
  }

  /** What one character of an item does, with the conversions done in a scratch buffer. */
  method Interpret(c: wchar, f: Flags, args: seq<Arg>, colours: Colours) returns (a: Action)
    requires !Meaning(c, f, args, colours).Broken?
    ensures a == Meaning(c, f, args, colours)
  {
    if c in TAKES_ARGUMENT {
      a := InterpretArgument(c, f, args[0], args[1..]);
    } else if c == PERCENT {
      a := Show(f, [PERCENT], args);
    } else if c == 0x2C {
      a := More(f.(comma := true), args);
    } else if c == 0x2D {
      a := More(f.(padBefore := false), args);
    } else if c == 0x2E {
      a := More(f.(inField := true), args);
    } else if c == 0x30 {
      a := More(f.(pad := ZERO), args);
    } else if c == 0x6C {
      a := More(f.(long := true), args);
    } else if c == 0x65 {
      a := Tint(colours.error);
    } else if c == 0x68 {
      a := Tint(colours.highlight);
    } else if c == 0x6E {
      a := Tint(colours.normal);
    } else if c == 0x45 {
      a := Colour(colours.error);
    } else if c == 0x48 {
      a := Colour(colours.highlight);
    } else if c == 0x4E {
      a := Colour(colours.normal);
    } else {
      a := Show(f, [0x3F], args);
    }
  }

  method InterpretArgument(c: wchar, f: Flags, arg: Arg, rest: seq<Arg>) returns (a: Action)
    requires !WithArgument(c, f, arg, rest).Broken?
    ensures a == WithArgument(c, f, arg, rest)
  {
    hide DecimalText, HexadecimalText, PointerText;
    match arg
    case Pointer(s) =>
      a := Show(f, if s.None? then NULL_TEXT else s.value, rest);
    case Given(t) =>
      a := Show(f, Clipped(t), rest);
    case Word(n) =>
      a := InterpretWord(c, f, n, rest);
  }

  method InterpretWord(c: wchar, f: Flags, n: nat, rest: seq<Arg>) returns (a: Action)
    requires !WithArgument(c, f, Word(n), rest).Broken?
    ensures a == WithArgument(c, f, Word(n), rest)
  {
    hide DecimalText, HexadecimalText, PointerText, Signed, Unsigned, Reinterpreted;
    var g, t := f, [];
    if c == 0x2A {
      return More(f.SetWidth(n % TWO64), rest);
    } else if c == 0x63 {
      t := CharText(n % 0x1_0000);
    } else if c == 0x64 {
      t := DecimalString(Signed(n, f.long), f.comma);
    } else if c == 0x75 {
      t := DecimalString(Reinterpreted(Unsigned(n, f.long)), f.comma);
    } else if c == 0x70 {
      g := f.(width := 0, pad := ZERO);
      t := PointerString(Unsigned(n, f.long));
    } else {
      if c == 0x58 {
        g := f.(width := if f.long then 16 else 8, pad := ZERO);
      }
      t := HexadecimalString(Unsigned(n, f.long));
    }
    a := Show(g, t, rest);
  }

  lemma AddDigitDenotes(ds: seq<nat>, c: wchar)
    requires IsDigit(c)
    ensures AddDigit(NumberParsing.Horner(ds, 10) % TWO64, c) == NumberParsing.Horner(ds + [c - 0x30], 10) % TWO64
  {
    assert (ds + [c - 0x30])[..|ds|] == ds;
    NumberParsing.TruncatedStep(NumberParsing.Horner(ds, 10), 10, c - 0x30);
  }

  lemma RunStep(fmt: Text, i: nat)
    requires i < |fmt| && IsDigit(fmt[i])
    ensures NumberParsing.DigitRun(fmt[i..], 10) == [fmt[i] - 0x30] + NumberParsing.DigitRun(fmt[i + 1..], 10)
  {
    assert fmt[i..][1..] == fmt[i + 1..];
  }

  lemma RunEnds(fmt: Text, i: nat)
    requires i <= |fmt| && (i < |fmt| ==> !IsDigit(fmt[i]))
    ensures NumberParsing.DigitRun(fmt[i..], 10) == []
  {
  }

  /** The number read from `i` on, behind some digits already read, is what all of them denote. */
  lemma {:induction false} NumberDenoted(fmt: Text, i: nat, before: seq<nat>)
    requires i <= |fmt|
    ensures var digits := NumberParsing.DigitRun(fmt[i..], 10);
            && NumberFrom(fmt, i, NumberParsing.Horner(before, 10) % TWO64)
               == NumberParsing.Horner(before + digits, 10) % TWO64
            && NumberEnd(fmt, i) == i + |digits|
    decreases |fmt| - i
  {
    hide NumberParsing.DigitRun, NumberParsing.Horner, AddDigit;
    var digits := NumberParsing.DigitRun(fmt[i..], 10);
    if i < |fmt| && IsDigit(fmt[i]) {
      var d := fmt[i] - 0x30;
      RunStep(fmt, i);
      Assoc(before, [d], NumberParsing.DigitRun(fmt[i + 1..], 10));
      AddDigitDenotes(before, fmt[i]);
      NumberDenoted(fmt, i + 1, before + [d]);
    } else {
      RunEnds(fmt, i);
      assert before + digits == before;
    }
  }

  lemma WidthDenoted(fmt: Text, i: nat)
    requires i < |fmt| && IsDigit(fmt[i])
    ensures var digits := NumberParsing.DigitRun(fmt[i..], 10);
            && NumberFrom(fmt, i, 0) == NumberParsing.Horner(digits, 10) % TWO64
            && NumberEnd(fmt, i + 1) == i + |digits|
  {
    hide NumberParsing.DigitRun, NumberParsing.Horner, NumberFrom, IsDigit;
    NothingRead();
    NumberDenoted(fmt, i, []);
    assert [] + NumberParsing.DigitRun(fmt[i..], 10) == NumberParsing.DigitRun(fmt[i..], 10);
  }

  lemma NothingRead()
    ensures NumberParsing.Horner([], 10) % TWO64 == 0
  {
  }

  lemma FirstDigit(c: wchar)
    requires IsDigit(c)
    ensures AddDigit(0, c) == c - 0x30
  {
  }

  /** A width written in digits. */
  method ParseWidth(fmt: Text, i: nat) returns (n: nat, j: nat)
    requires i < |fmt| && IsDigit(fmt[i])
    ensures j == NumberEnd(fmt, i + 1) && n == NumberFrom(fmt, i, 0)
    ensures var digits := NumberParsing.DigitRun(fmt[i..], 10);
            j == i + |digits| && n == NumberParsing.Horner(digits, 10) % TWO64
  {
    hide NumberParsing.DigitRun, NumberParsing.Horner;
    WidthDenoted(fmt, i);
    FirstDigit(fmt[i]);
    hide AddDigit;
    n := fmt[i] - 0x30;
    j := i + 1;
    while IsDigit(CharAt(fmt, j))
      invariant i < j <= |fmt|
      invariant NumberEnd(fmt, j) == NumberEnd(fmt, i + 1) && NumberFrom(fmt, j, n) == NumberFrom(fmt, i, 0)
      decreases |fmt| - j
    {
      n := AddDigit(n, fmt[j]);
      j := j + 1;
    }
  }

  // ---------- the interpreter ----------

  /** Printing the item at `i` leaves the rest of the format as it would be rendered alone. */
  ghost predicate Continues(r: Option<seq<wchar>>, shown: seq<wchar>, rest: Option<seq<wchar>>) {
    r.Some? && rest.Some? && r.value == shown + rest.value
  }

  method PrintItem(p: Printer, fmt: Text, i: nat, args: seq<Arg>)
    returns (j: nat, rest: seq<Arg>, ghost shown: seq<wchar>, ghost hue: seq<nat>)
    requires p.Valid() && i <= |fmt|
    requires RenderItem(fmt, i, NO_FLAGS, args, p.colours).Some?
    modifies p, p.buffer
    ensures p.Valid() && i < j <= |fmt|
    ensures Continues(RenderItem(fmt, i, NO_FLAGS, args, p.colours), shown, Render(fmt, j, rest, p.colours))
    ensures p.Written() == After(old(p.Written()), shown) && p.ink == old(p.ink) + hue
    ensures ItemInk(fmt, i, NO_FLAGS, args, p.colours, old(p.attr), 0) == hue + Ink(fmt, j, rest, p.colours, p.attr)
  {
    hide Inked, Expand, Ink, p.Valid, p.Written, After, Padded, Meaning, WithArgument, NumberEnd, NumberFrom, IsDigit;
    ghost var w := p.Written();
    AfterNothing(w);
    shown, hue := [], [];
    ghost var first := ItemInk(fmt, i, NO_FLAGS, args, p.colours, p.attr, 0);
    j, rest := i, args;
    var f := NO_FLAGS;
    p.ForgetColour();
    var open := true;
    while open
      invariant p.Valid() && i <= j <= |fmt|
      invariant open ==> RenderItem(fmt, j, f, rest, p.colours) == RenderItem(fmt, i, NO_FLAGS, args, p.colours)
      invariant open ==> p.Written() == w && shown == [] && hue == [] && p.ink == old(p.ink)
      invariant open ==> ItemInk(fmt, j, f, rest, p.colours, p.attr, p.restoreAttr) == first
      invariant !open ==> p.ink == old(p.ink) + hue
      invariant !open ==> hue + Ink(fmt, j, rest, p.colours, Back(p.attr, p.restoreAttr)) == first
      invariant !open ==> i < j && p.Written() == After(w, shown)
      invariant !open ==>
        Continues(RenderItem(fmt, i, NO_FLAGS, args, p.colours), shown, Render(fmt, j, rest, p.colours))
      decreases open, |fmt| - j
    {
      var c := fmt[j];
      if IsDigit(c) && c != ZERO {
        var n, k := ParseWidth(fmt, j);
        f := f.SetWidth(n);
        j := k;
      } else {
        var a := Interpret(c, f, rest, p.colours);
        j := j + 1;
        match a
        case More(f', rest') =>
          f, rest := f', rest';
        case Tint(x) =>
          p.SetColour(x);
        case Colour(x) =>
          if x != 0 {
            p.SetColour(x);
            p.ForgetColour();
            open := false;
          }
        case Show(f', text, rest') =>
          p.PutItem(f', text);
          shown, rest := Padded(f', text), rest';
          AfterLength(w, shown);
          hue := Same(p.attr, |Expand(shown)|);
          InkedIs(old(p.ink), p.attr, |Expand(shown)|);
          open := false;
      }
    }
    if p.restoreAttr != 0 {
      p.SetColour(p.restoreAttr);
    }
  }

  lemma AfterLength(w: seq<wchar>, t: seq<wchar>)
    ensures |After(w, t)| == |w| + |Expand(t)|
  {
    hide Expand;
  }

  lemma InkedIs(ink: seq<nat>, a: nat, n: nat)
    ensures Inked(ink, a, n) == ink + Same(a, n)
  {
  }

  lemma ContinuesTrans(r: Option<seq<wchar>>, a: seq<wchar>, s: Option<seq<wchar>>, b: seq<wchar>,
                       t: Option<seq<wchar>>)
    requires Continues(r, a, s) && Continues(s, b, t)
    ensures Continues(r, a + b, t)
  {
    Assoc(a, b, t.value);
  }

  lemma ContinuesStart(fmt: Text, args: seq<Arg>, colours: Colours)
    requires Render(fmt, 0, args, colours).Some?
    ensures Continues(Render(fmt, 0, args, colours), [], Render(fmt, 0, args, colours))
  {
    hide Render;
  }

  lemma ContinuesEnd(r: Option<seq<wchar>>, a: seq<wchar>)
    requires Continues(r, a, Some([]))
    ensures r == Some(a)
  {
    assert a + [] == a;
  }

  lemma RenderPlain(fmt: Text, i: nat, args: seq<Arg>, colours: Colours)
    requires i < |fmt| && fmt[i] != PERCENT && Render(fmt, i, args, colours).Some?
    ensures Continues(Render(fmt, i, args, colours), [fmt[i]], Render(fmt, i + 1, args, colours))
  {
  }

  /**
    * The engine.  However the text falls on the staging buffer and wherever the
    * colour changes, what goes out is the rendered text with its line ends.
    */
  method Print(fmt: Text, args: seq<Arg>, colours: Colours, hasSetAttr: bool, attr: nat)
    returns (events: seq<Event>, len: nat)
    requires Render(fmt, 0, args, colours).Some?
    ensures Sent(events) == Expand(Render(fmt, 0, args, colours).value)
    ensures Staged(events) && events != [] && events[|events| - 1].Out?
    ensures len == |Expand(Render(fmt, 0, args, colours).value)| % TWO64
    ensures hasSetAttr ==> Painted(events, attr) == Ink(fmt, 0, args, colours, attr)
  {
    hide RenderItem, Padded, Expand, ItemInk, Inked, Painted, Sent, Staged, Printer.Valid, Printer.Written;
    ContinuesStart(fmt, args, colours);
    var p := new Printer(colours, hasSetAttr, attr);
    ghost var all := Render(fmt, 0, args, colours);
    ghost var done: seq<wchar> := [];
    AfterNothing([]);
    var i, rest := 0, args;
    while CharAt(fmt, i) != 0
      invariant 0 <= i <= |fmt| && p.Valid() && p.colours == colours && fresh(p) && fresh(p.buffer)
      invariant Continues(all, done, Render(fmt, i, rest, colours))
      invariant p.Written() == After([], done) && p.hasSetAttr == hasSetAttr && p.firstAttr == attr
      invariant p.ink + Ink(fmt, i, rest, colours, p.attr) == Ink(fmt, 0, args, colours, attr)
      decreases |fmt| - i
    {
      var c := fmt[i];
      ghost var before := Render(fmt, i, rest, colours);
      ghost var shown: seq<wchar>, hue: seq<nat>;
      ghost var ink := p.ink;
      if c != PERCENT {
        RenderPlain(fmt, i, rest, colours);
        AfterChar([], done, c);
        shown := [c];
        hue := Same(p.attr, |ExpandChar(c)|);
        InkedIs(p.ink, p.attr, |ExpandChar(c)|);
        p.Put(c);
        i := i + 1;
      } else {
        i, rest, shown, hue := PrintItem(p, fmt, i + 1, rest);
        AfterTwo([], done, shown);
      }
      ContinuesTrans(all, done, before, shown, Render(fmt, i, rest, colours));
      Assoc(ink, hue, Ink(fmt, i, rest, colours, p.attr));
      done := done + shown;
    }
    p.Finish();
    ContinuesEnd(all, done);
    assert [] + Expand(done) == Expand(done);
    return p.events, p.len;
  }
}
