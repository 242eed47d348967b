/** The colours that a format asks for, unit by unit. */
module PrintInk {
  import opened Machine
  import opened Strings
  import opened PrintSpec
  import opened Printing

  /** The colour of each unit of the text from `i` on, when `attr` is in force there. */
  function Ink(fmt: Text, i: nat, args: seq<Arg>, colours: Colours, attr: nat): seq<nat>
    requires i <= |fmt|
    decreases |fmt| - i, 1
  {
    if i == |fmt| then []
    else if fmt[i] == PERCENT then ItemInk(fmt, i + 1, NO_FLAGS, args, colours, attr, 0)
    else Same(attr, |ExpandChar(fmt[i])|) + Ink(fmt, i + 1, args, colours, attr)
  }

  /** The same inside an item, when colour `restore` is to come back behind it. */
  function ItemInk(fmt: Text, i: nat, f: Flags, args: seq<Arg>, colours: Colours, attr: nat, restore: nat): seq<nat>
    requires i <= |fmt|
    decreases |fmt| - i, 0
  {
    if i == |fmt| then []
    else if IsDigit(fmt[i]) && fmt[i] != 0x30 then
      ItemInk(fmt, NumberEnd(fmt, i + 1), f.SetWidth(NumberFrom(fmt, i, 0)), args, colours, attr, restore)
    else match Meaning(fmt[i], f, args, colours)
      case Broken => []
      case More(f', args') => ItemInk(fmt, i + 1, f', args', colours, attr, restore)
      case Tint(a) => ItemInk(fmt, i + 1, f, args, colours, a, attr)
      case Colour(a) =>
        if a == 0 then ItemInk(fmt, i + 1, f, args, colours, attr, restore) else Ink(fmt, i + 1, args, colours, a)
      case Show(f', text, args') =>
        Same(attr, |Expand(Padded(f', text))|) + Ink(fmt, i + 1, args', colours, Back(attr, restore))
  }

  /** The colour behind an item; zero is no colour to go back to. */
  function Back(attr: nat, restore: nat): nat {
    if restore != 0 then restore else attr
  }

  // ---------- for one field only ----------

  /** The item from `i` on is complete and shows something, whatever colours it asks for. */
  predicate Shown(fmt: Text, i: nat, f: Flags, args: seq<Arg>, colours: Colours)
    requires i <= |fmt|
    decreases |fmt| - i
  {
    && i < |fmt|
    && if IsDigit(fmt[i]) && fmt[i] != 0x30 then
         Shown(fmt, NumberEnd(fmt, i + 1), f.SetWidth(NumberFrom(fmt, i, 0)), args, colours)
       else match Meaning(fmt[i], f, args, colours)
         case Broken => false
         case More(f', args') => Shown(fmt, i + 1, f', args', colours)
         case Tint(_) => Shown(fmt, i + 1, f, args, colours)
         case Colour(a) => a == 0 && Shown(fmt, i + 1, f, args, colours)
         case Show(_, _, _) => true
  }

  /** What an item shows, the colours it asks for, and where the format goes on with which arguments. */
  datatype Field = Field(shown: seq<wchar>, tints: seq<nat>, next: nat, rest: seq<Arg>)

  function FieldAt(fmt: Text, i: nat, f: Flags, args: seq<Arg>, colours: Colours): (r: Field)
    requires i <= |fmt| && Shown(fmt, i, f, args, colours)
    ensures i < r.next <= |fmt|
    decreases |fmt| - i
  {
    if IsDigit(fmt[i]) && fmt[i] != 0x30 then
      FieldAt(fmt, NumberEnd(fmt, i + 1), f.SetWidth(NumberFrom(fmt, i, 0)), args, colours)
    else match Meaning(fmt[i], f, args, colours)
      case More(f', args') => FieldAt(fmt, i + 1, f', args', colours)
      case Tint(a) => Asking(a, FieldAt(fmt, i + 1, f, args, colours))
      case Colour(_) => FieldAt(fmt, i + 1, f, args, colours)
      case Show(f', text, args') => Field(Padded(f', text), [], i + 1, args')
  }

  function Asking(a: nat, r: Field): Field {
    r.(tints := [a] + r.tints)
  }

  /** The colour in force and the one to come back after some requests. */
  function Fold(tints: seq<nat>, attr: nat, restore: nat): (nat, nat) {
    if tints == [] then (attr, restore) else Fold(tints[1..], tints[0], attr)
  }

  lemma {:induction false} FoldEnds(tints: seq<nat>, attr: nat, restore: nat)
    requires tints != []
    ensures Fold(tints, attr, restore)
      == (tints[|tints| - 1], if |tints| == 1 then attr else tints[|tints| - 2])
  {
    if |tints| > 1 {
      FoldEnds(tints[1..], tints[0], attr);
    }
  }

  /** The colour behind an item that asks for some colours. */
  function Behind(tints: seq<nat>, attr: nat): nat {
    var (last, restore) := Fold(tints, attr, 0);
    Back(last, restore)
  }

  /** An item is shown in the last colour it asks for, and the colour to come back is the one before that. */
  lemma {:induction false} ItemColours(fmt: Text, i: nat, f: Flags, args: seq<Arg>, colours: Colours,
                                       attr: nat, restore: nat)
    requires i <= |fmt| && Shown(fmt, i, f, args, colours)
    ensures var r := FieldAt(fmt, i, f, args, colours);
            var (last, back) := Fold(r.tints, attr, restore);
            && RenderItem(fmt, i, f, args, colours) == Prepend(r.shown, Render(fmt, r.next, r.rest, colours))
            && ItemInk(fmt, i, f, args, colours, attr, restore)
               == Same(last, |Expand(r.shown)|) + Ink(fmt, r.next, r.rest, colours, Back(last, back))
    decreases |fmt| - i
  {
    hide Meaning, Padded, IsDigit, NumberEnd, NumberFrom, Expand, Render, Ink, Prepend, Same;
    if IsDigit(fmt[i]) && fmt[i] != 0x30 {
      ItemColours(fmt, NumberEnd(fmt, i + 1), f.SetWidth(NumberFrom(fmt, i, 0)), args, colours, attr, restore);
    } else {
      match Meaning(fmt[i], f, args, colours)
      case More(f', args') => ItemColours(fmt, i + 1, f', args', colours, attr, restore);
      case Tint(a) =>
        ItemColours(fmt, i + 1, f, args, colours, a, attr);
        FoldCons(a, FieldAt(fmt, i + 1, f, args, colours).tints, attr, restore);
      case Colour(_) => ItemColours(fmt, i + 1, f, args, colours, attr, restore);
      case Show(_, _, _) =>
    }
  }

  lemma FoldCons(a: nat, tints: seq<nat>, attr: nat, restore: nat)
    ensures Fold([a] + tints, attr, restore) == Fold(tints, a, attr)
  {
    assert ([a] + tints)[1..] == tints;
  }

  /** The colours of an item leave the one in force before it, which is `attr`. */
  predicate Restores(tints: seq<nat>, attr: nat) {
    || tints == []
    || var last := tints[|tints| - 1];
       var before := if |tints| == 1 then attr else tints[|tints| - 2];
       if before != 0 then before == attr else last == attr
  }

  /**
    * The colours that an item asks for hold for that field only, that is, the colour
    * behind the item is the one before it, exactly when `Restores` is true of them.
    */
  lemma ForThisFieldOnly(fmt: Text, i: nat, f: Flags, args: seq<Arg>, colours: Colours, attr: nat)
    requires i <= |fmt| && Shown(fmt, i, f, args, colours)
    ensures var r := FieldAt(fmt, i, f, args, colours);
            && ItemInk(fmt, i, f, args, colours, attr, 0)
               == Same(Fold(r.tints, attr, 0).0, |Expand(r.shown)|)
                  + Ink(fmt, r.next, r.rest, colours, Behind(r.tints, attr))
            && (Behind(r.tints, attr) == attr <==> Restores(r.tints, attr))
  {
    hide ItemInk, Ink, Expand, Shown, FieldAt, Same, RenderItem;
    ItemColours(fmt, i, f, args, colours, attr, 0);
    var tints := FieldAt(fmt, i, f, args, colours).tints;
    if tints != [] {
      FoldEnds(tints, attr, 0);
    }
  }

  /** One colour: behind the field the old one is back unless that was zero. */
  lemma TintForOneField(fmt: Text, i: nat, f: Flags, args: seq<Arg>, colours: Colours, attr: nat, a: nat)
    requires i <= |fmt| && Shown(fmt, i, f, args, colours) && FieldAt(fmt, i, f, args, colours).tints == [a]
    ensures var r := FieldAt(fmt, i, f, args, colours);
            ItemInk(fmt, i, f, args, colours, attr, 0)
            == Same(a, |Expand(r.shown)|) + Ink(fmt, r.next, r.rest, colours, if attr != 0 then attr else a)
  {
    hide ItemInk, Ink, Expand, Shown, FieldAt, Same;
    ForThisFieldOnly(fmt, i, f, args, colours, attr);
    FoldEnds([a], attr, 0);
  }

  /** Several colours: behind the field the last but one stays, unless that is zero. */
  lemma LastButOneStays(fmt: Text, i: nat, f: Flags, args: seq<Arg>, colours: Colours, attr: nat)
    requires i <= |fmt| && Shown(fmt, i, f, args, colours) && |FieldAt(fmt, i, f, args, colours).tints| > 1
    ensures var r := FieldAt(fmt, i, f, args, colours);
            var last, before := r.tints[|r.tints| - 1], r.tints[|r.tints| - 2];
            ItemInk(fmt, i, f, args, colours, attr, 0)
            == Same(last, |Expand(r.shown)|) + Ink(fmt, r.next, r.rest, colours, if before != 0 then before else last)
  {
    hide ItemInk, Ink, Expand, Shown, FieldAt, Same;
    ForThisFieldOnly(fmt, i, f, args, colours, attr);
    FoldEnds(FieldAt(fmt, i, f, args, colours).tints, attr, 0);
  }

  /** %ehs on a console in colour 7: the text behind it goes on in the colour for errors. */
  lemma ColourStays()
    ensures var fmt: Text, args, colours := [PERCENT, 0x65, 0x68, 0x73], [Pointer(None)], Colours(7, 3, 4);
            && Shown(fmt, 1, NO_FLAGS, args, colours)
            && FieldAt(fmt, 1, NO_FLAGS, args, colours).tints == [4, 3]
            && Behind([4, 3], 7) == 4 && !Restores([4, 3], 7)
  {
    var fmt: Text, args, colours := [PERCENT, 0x65, 0x68, 0x73], [Pointer(None)], Colours(7, 3, 4);
    assert Meaning(fmt[1], NO_FLAGS, args, colours) == Tint(4);
    assert Meaning(fmt[2], NO_FLAGS, args, colours) == Tint(3);
    assert Meaning(fmt[3], NO_FLAGS, args, colours) == Show(NO_FLAGS, NULL_TEXT, args[1..]);
    hide Meaning, Padded;
    assert Shown(fmt, 3, NO_FLAGS, args, colours);
    assert Shown(fmt, 2, NO_FLAGS, args, colours);
    assert FieldAt(fmt, 3, NO_FLAGS, args, colours).tints == [];
    assert FieldAt(fmt, 2, NO_FLAGS, args, colours).tints == [3];
    FoldEnds([4, 3], 7, 0);
  }
}
