/**
  * The print engine: characters are staged in a small buffer, which is handed to
  * the output routine whenever it is full, when the colour changes, and at the
  * end.  One `Printer` stands for one call of the engine.
  */
module Printing {
  import opened Machine
  import opened Seqs
  import opened Strings
  import opened Numbers
  import opened PrintSpec

  const STAGE_SIZE := 200
  const SCRATCH_SIZE := 100

  /** A call of the output routine or of the routine that sets the colour. */
  datatype Event = Out(chunk: Text) | SetAttr(attr: nat)

  function EventText(e: Event): seq<wchar> {
    if e.Out? then e.chunk else []
  }

  /** What the output routine was given, in order. */
  function Sent(events: seq<Event>): seq<wchar> {
    if events == [] then [] else Sent(events[..|events| - 1]) + EventText(events[|events| - 1])
  }

  lemma SentSnoc(events: seq<Event>, e: Event)
    ensures Sent(events + [e]) == Sent(events) + EventText(e)
    ensures Staged(events) && (e.Out? ==> |e.chunk| < STAGE_SIZE) ==> Staged(events + [e])
  {
    assert (events + [e])[..|events|] == events;
  }

  /** Chunks fit in the stage and hold no terminator; the latter is part of their type. */
  predicate Staged(events: seq<Event>) {
    forall i :: 0 <= i < |events| && events[i].Out? ==> |events[i].chunk| <= 199
  }

  // ---------- colours ----------

  /** The colour in force after some events. */
  function ColourOf(events: seq<Event>, a: nat): nat {
    if events == [] then a
    else if events[|events| - 1].SetAttr? then events[|events| - 1].attr
    else ColourOf(events[..|events| - 1], a)
  }

  function Same(a: nat, n: nat): (r: seq<nat>)
    ensures |r| == n
  {
    seq(n, _ => a)
  }

  /** The colour in which each unit went out. */
  function Painted(events: seq<Event>, a: nat): seq<nat> {
    if events == [] then []
    else
      var before := events[..|events| - 1];
      Painted(before, a) + Same(ColourOf(before, a), |EventText(events[|events| - 1])|)
  }

  lemma PaintedSnoc(events: seq<Event>, e: Event, a: nat)
    ensures Painted(events + [e], a) == Painted(events, a) + Same(ColourOf(events, a), |EventText(e)|)
    ensures ColourOf(events + [e], a) == if e.SetAttr? then e.attr else ColourOf(events, a)
  {
    assert (events + [e])[..|events|] == events;
  }

  /** `n` more units in one colour. */
  function Inked(ink: seq<nat>, a: nat, n: nat): seq<nat> {
    ink + Same(a, n)
  }

  lemma InkedNone(ink: seq<nat>, a: nat)
    ensures Inked(ink, a, 0) == ink
  {
  }

  lemma InkedTwice(ink: seq<nat>, a: nat, m: nat, n: nat)
    ensures Inked(Inked(ink, a, m), a, n) == Inked(ink, a, m + n)
  {
  }

  lemma {:induction false} ExpandConcat(a: seq<wchar>, b: seq<wchar>)
    ensures Expand(a + b) == Expand(a) + Expand(b)
  {
    if b == [] {
      assert a + b == a;
    } else {
      var b', c := b[..|b| - 1], b[|b| - 1];
      assert (a + b)[..|a + b| - 1] == a + b';
      ExpandConcat(a, b');
      Assoc(Expand(a), Expand(b'), ExpandChar(c));
    }
  }

  /** Text `w` and the lines of `t` behind it. */
  function After(w: seq<wchar>, t: seq<wchar>): seq<wchar> {
    w + Expand(t)
  }

  lemma AfterNothing(w: seq<wchar>)
    ensures After(w, []) == w
  {
  }

  lemma AfterTwo(w: seq<wchar>, a: seq<wchar>, b: seq<wchar>)
    ensures After(After(w, a), b) == After(w, a + b)
  {
    ExpandConcat(a, b);
    Assoc(w, Expand(a), Expand(b));
  }

  lemma AfterChar(w: seq<wchar>, t: seq<wchar>, c: wchar)
    ensures After(w, t) + ExpandChar(c) == After(w, t + [c])
  {
    assert (t + [c])[..|t|] == t;
    Assoc(w, Expand(t), ExpandChar(c));
  }

  /** The 64-bit count of characters. */
  function Count(n: nat): nat {
    n % TWO64
  }

  lemma OneMore(n: nat)
    ensures Count(Count(n) + 1) == Count(n + 1)
  {
  }

  /** The string that starts at `from` and runs to the first terminator. */
  method ReadString(a: array<wchar>, from: nat, ghost t: seq<wchar>) returns (s: Text)
    requires from + |t| < a.Length && NoNul(t)
    requires a[from..from + |t|] == t && a[from + |t|] == 0
    ensures s == t
  {
    var n := 0;
    while a[from + n] != 0
      invariant 0 <= n <= |t|
      decreases |t| - n
    {
      assert n < |t| && t[n] == a[from..from + |t|][n];
      n := n + 1;
    }
    s := a[from..from + n];
  }

  class Printer {
    const buffer: array<wchar>
    const colours: Colours
    const hasSetAttr: bool
    const firstAttr: nat
    ghost var ink: seq<nat>  // the colour in force when each unit was printed
    var pos: nat
    var len: nat
    var attr: nat
    var restoreAttr: nat
    var events: seq<Event>

    ghost predicate Valid()
      reads this, buffer
    {
      && buffer.Length == STAGE_SIZE
      && pos < STAGE_SIZE - 1
      && NoNul(buffer[..pos])
      && Staged(events)
      && len == Count(|Written()|)
      && (hasSetAttr ==> Faithful())
    }

    /** What went out and what is staged have the colours in which they were printed. */
    ghost predicate Faithful()
      reads this
    {
      ColourOf(events, firstAttr) == attr && Inked(Painted(events, firstAttr), attr, pos) == ink
    }

    /** Everything that was printed: what went out and what is staged. */
    ghost function Written(): seq<wchar>
      reads this, buffer
    {
      if pos <= buffer.Length then Sent(events) + buffer[..pos] else []
    }

    constructor (colours: Colours, hasSetAttr: bool, attr: nat)
      ensures Valid() && Written() == [] && events == []
      ensures fresh(buffer) && this.colours == colours && this.hasSetAttr == hasSetAttr
      ensures this.attr == firstAttr == attr && ink == []
    {
      buffer := new wchar[STAGE_SIZE];
      this.colours := colours;
      this.hasSetAttr := hasSetAttr;
      this.attr := attr;
      firstAttr := attr;
      ink := [];
      restoreAttr := 0;
      events := [];
      pos := 0;
      len := 0;
    }

    /** The staged text goes out and the stage is empty again. */
    method Flush()
      requires buffer.Length == STAGE_SIZE && pos < STAGE_SIZE && NoNul(buffer[..pos]) && Staged(events)
      modifies this, buffer
      ensures pos == 0 && Staged(events) && Sent(events) == Written() == old(Written())
      ensures |events| == |old(events)| + 1 && events[..|old(events)|] == old(events) && events[|old(events)|].Out?
      ensures len == old(len) && attr == old(attr) && restoreAttr == old(restoreAttr) && ink == old(ink)
      ensures old(Faithful()) ==> Faithful()
    {
      hide Sent, Staged, Painted, ColourOf, Inked;
      buffer[pos] := 0;
      ghost var t := buffer[..pos];
      assert t == old(buffer[..pos]) && buffer[0..0 + |t|] == t;
      var chunk := ReadString(buffer, 0, t);
      SentSnoc(events, Out(chunk));
      SentInk(Out(chunk));
      events := events + [Out(chunk)];
      pos := 0;
    }

    lemma SentInk(e: Event)
      ensures ColourOf(events, firstAttr) == attr && |EventText(e)| == pos && e.Out? ==>
        && Inked(Painted(events + [e], firstAttr), attr, 0) == Inked(Painted(events, firstAttr), attr, pos)
        && ColourOf(events + [e], firstAttr) == attr
    {
      PaintedSnoc(events, e, firstAttr);
      InkedNone(Painted(events + [e], firstAttr), attr);
    }

    /** What is staged goes out in the old colour; only then is the new one set. */
    method SetColour(a: nat)
      requires Valid()
      modifies this, buffer
      ensures Valid() && Written() == old(Written()) && pos == 0
      ensures attr == a && restoreAttr == old(attr) && ink == old(ink)
      ensures |events| == |old(events)| + (if hasSetAttr then 2 else 1)
      ensures events[..|old(events)|] == old(events) && events[|old(events)|].Out?
      ensures hasSetAttr ==> events[|old(events)| + 1] == SetAttr(a)
    {
      hide Sent, Staged, Painted, ColourOf, Inked;
      Flush();
      restoreAttr := attr;
      if hasSetAttr {
        PaintedSnoc(events, SetAttr(a), firstAttr);
        NoInk(Painted(events, firstAttr), ColourOf(events, firstAttr), attr, a);
        SentSnoc(events, SetAttr(a));
        assert Sent(events) + EventText(SetAttr(a)) == Sent(events);
        events := events + [SetAttr(a)];
      }
      attr := a;
    }

    static lemma NoInk(painted: seq<nat>, before: nat, attr: nat, a: nat)
      ensures Inked(painted + Same(before, 0), a, 0) == painted == Inked(painted, attr, 0)
    {
    }

    /** The end of the format: what is still staged goes out. */
    method Finish()
      requires Valid()
      modifies this, buffer
      ensures Sent(events) == old(Written()) && len == Count(|old(Written())|)
      ensures Staged(events) && events != [] && events[|events| - 1].Out?
      ensures hasSetAttr ==> Painted(events, firstAttr) == old(ink)
    {
      hide Sent, Staged, Count, Painted, ColourOf, Inked;
      Flush();
      InkedNone(Painted(events, firstAttr), attr);
    }

    /** No colour to go back to. */
    method ForgetColour()
      requires Valid()
      modifies this`restoreAttr
      ensures Valid() && Written() == old(Written()) && restoreAttr == 0
    {
      hide Painted, ColourOf, Inked, Sent;
      restoreAttr := 0;
    }

    method PutUnit(c: wchar)
      requires Valid() && c != 0
      modifies this, buffer
      ensures Valid() && Written() == old(Written()) + [c]
      ensures ink == Inked(old(ink), attr, 1)
      ensures attr == old(attr) && restoreAttr == old(restoreAttr)
    {
      hide Sent, Staged, Count, Painted, ColourOf, Inked;
      buffer[pos] := c;
      pos := pos + 1;
      assert buffer[..pos] == old(buffer[..pos]) + [c];
      Assoc(Sent(events), old(buffer[..pos]), [c]);
      OneMore(|old(Written())|);
      len := Count(len + 1);
      InkedTwice(Painted(events, firstAttr), attr, old(pos), 1);
      ink := Inked(ink, attr, 1);
      if pos >= STAGE_SIZE - 1 {
        Flush();
      }
    }

    /** One character; a newline brings its carriage return along. */
    method Put(c: wchar)
      requires Valid() && c != 0
      modifies this, buffer
      ensures Valid() && Written() == old(Written()) + ExpandChar(c)
      ensures ink == Inked(old(ink), attr, |ExpandChar(c)|)
      ensures attr == old(attr) && restoreAttr == old(restoreAttr)
      decreases c == NEWLINE
    {
      hide Valid, Inked;
      if c == NEWLINE {
        InkedTwice(ink, attr, 1, 1);
        Put(RETURN);
        Assoc(old(Written()), [RETURN], [NEWLINE]);
      }
      PutUnit(c);
    }

    /** The padding loops: `c` from `i` up to `n`. */
    method PutRun(c: wchar, i: nat, n: nat)
      requires Valid() && c != 0
      modifies this, buffer
      ensures Valid() && Written() == After(old(Written()), Run(c, i, n))
      ensures |Written()| >= |old(Written())| && ink == Inked(old(ink), attr, |Written()| - |old(Written())|)
      ensures attr == old(attr) && restoreAttr == old(restoreAttr)
    {
      hide Valid, Written, After, ExpandChar, Inked;
      ghost var w := Written();
      AfterNothing(w);
      InkedNone(ink, attr);
      assert Run(c, i, i) == [];
      var k := i;
      while k < n
        invariant i <= k && (k <= n || k == i)
        invariant Valid() && Written() == After(w, Run(c, i, k))
        invariant |Written()| >= |w| && ink == Inked(old(ink), attr, |Written()| - |w|)
        invariant attr == old(attr) && restoreAttr == old(restoreAttr)
      {
        RunSnoc(c, i, k);
        AfterChar(w, Run(c, i, k), c);
        InkedTwice(old(ink), attr, |Written()| - |w|, |ExpandChar(c)|);
        Put(c);
        k := k + 1;
      }
      assert Run(c, i, k) == Run(c, i, n);
    }

    method PutText(text: Text, n: nat)
      requires Valid() && n <= |text|
      modifies this, buffer
      ensures Valid() && Written() == After(old(Written()), text[..n])
      ensures |Written()| >= |old(Written())| && ink == Inked(old(ink), attr, |Written()| - |old(Written())|)
      ensures attr == old(attr) && restoreAttr == old(restoreAttr)
    {
      hide Valid, Written, After, ExpandChar, Inked;
      ghost var w := Written();
      AfterNothing(w);
      InkedNone(ink, attr);
      var k := 0;
      while k < n
        invariant k <= n
        invariant Valid() && Written() == After(w, text[..k])
        invariant |Written()| >= |w| && ink == Inked(old(ink), attr, |Written()| - |w|)
        invariant attr == old(attr) && restoreAttr == old(restoreAttr)
      {
        assert text[..k + 1] == text[..k] + [text[k]];
        AfterChar(w, text[..k], text[k]);
        InkedTwice(old(ink), attr, |Written()| - |w|, |ExpandChar(text[k])|);
        Put(CharAt(text, k));
        k := k + 1;
      }
    }

    /** The item itself, padded in front to its width. */
    method PutBody(pad: Filler, len: nat, width: nat, text: Text)
      requires Valid() && len <= |text|
      modifies this, buffer
      ensures Valid() && Written() == After(old(Written()), Run(pad, len, width) + text[..len])
      ensures |Written()| >= |old(Written())| && ink == Inked(old(ink), attr, |Written()| - |old(Written())|)
      ensures attr == old(attr) && restoreAttr == old(restoreAttr)
    {
      hide Valid, Written, After, Inked, Run;
      ghost var w := Written();
      AfterTwo(w, Run(pad, len, width), text[..len]);
      PutRun(pad, len, width);
      ghost var v := Written();
      PutText(text, len);
      InkedTwice(old(ink), attr, |v| - |w|, |Written()| - |v|);
    }

    /** An item with its padding. */
    method PutItem(f: Flags, text: Text)
      requires Valid()
      modifies this, buffer
      ensures Valid() && Written() == After(old(Written()), Padded(f, text))
      ensures |Written()| >= |old(Written())| && ink == Inked(old(ink), attr, |Written()| - |old(Written())|)
      ensures attr == old(attr) && restoreAttr == old(restoreAttr)
    {
      hide Valid, Written, After, Padded, Inked, Run;
      var len := ItemLength(text, f.field);
      var field := if f.field == NO_WIDTH then len else f.field;
      var width := if len > f.width then len else f.width;
      PaddedParts(f, text, len, field, width);
      ghost var w := Written();
      ghost var spaces, body := Run(SPACE, width, field), Run(f.pad, len, width) + text[..len];
      if f.padBefore {
        AfterTwo(w, spaces, body);
        PutRun(SPACE, width, field);
      }
      ghost var v := Written();
      PutBody(f.pad, len, width, text);
      if f.padBefore {
        InkedTwice(old(ink), attr, |v| - |w|, |Written()| - |v|);
      } else {
        ghost var u := Written();
        AfterTwo(w, body, spaces);
        PutRun(SPACE, width, field);
        InkedTwice(old(ink), attr, |u| - |w|, |Written()| - |u|);
      }
    }
  }

  /** How much of the text fits in the field. */
  method ItemLength(text: Text, field: nat) returns (len: nat)
    ensures len == if |text| <= field then |text| else field
  {
    len := 0;
    while len < field
      invariant 0 <= len <= field && len <= |text|
      decreases field - len
    {
      if CharAt(text, len) == 0 {
        break;
      }
      len := len + 1;
    }
  }

  function Run(c: wchar, i: nat, n: nat): seq<wchar> {
    Fill(c, if i < n then n - i else 0)
  }

  lemma RunSnoc(c: wchar, i: nat, k: nat)
    requires i <= k
    ensures Run(c, i, k + 1) == Run(c, i, k) + [c]
  {
  }

  lemma PaddedParts(f: Flags, text: Text, len: nat, field: nat, width: nat)
    requires len == if |text| <= f.field then |text| else f.field
    requires field == if f.field == NO_WIDTH then len else f.field
    requires width == if len > f.width then len else f.width
    ensures Padded(f, text) == if f.padBefore then Run(SPACE, width, field) + (Run(f.pad, len, width) + text[..len])
                               else Run(f.pad, len, width) + text[..len] + Run(SPACE, width, field)
  {
    hide Fill;
  }
}
