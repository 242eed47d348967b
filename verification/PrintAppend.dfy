/**
  * Formats compose: printing two formats one after the other is printing their
  * concatenation, the second going on with the arguments the first has left.
  */
module PrintAppend {
  import opened Machine
  import opened Seqs
  import opened Strings
  import opened PrintSpec

  function Join(p: Text, f: Text): (r: Text)
    ensures |r| == |p| + |f|
  {
    p + f
  }

  // ---------- behind a prefix ----------

  lemma {:induction false} NumberShift(p: Text, f: Text, i: nat, n: nat)
    requires i <= |f|
    ensures NumberEnd(Join(p, f), |p| + i) == |p| + NumberEnd(f, i)
    ensures NumberFrom(Join(p, f), |p| + i, n) == NumberFrom(f, i, n)
    decreases |f| - i
  {
    if i < |f| && IsDigit(f[i]) {
      NumberShift(p, f, i + 1, (n * 10 + f[i] - 0x30) % TWO64);
    }
  }

  lemma {:induction false} RenderShift(p: Text, f: Text, i: nat, args: seq<Arg>, colours: Colours)
    requires i <= |f|
    ensures Render(Join(p, f), |p| + i, args, colours) == Render(f, i, args, colours)
    decreases |f| - i, 1
  {
    if i < |f| {
      if f[i] == PERCENT {
        ItemShift(p, f, i + 1, NO_FLAGS, args, colours);
      } else {
        RenderShift(p, f, i + 1, args, colours);
      }
    }
  }

  lemma {:induction false} ItemShift(p: Text, f: Text, i: nat, flags: Flags, args: seq<Arg>, colours: Colours)
    requires i <= |f|
    ensures RenderItem(Join(p, f), |p| + i, flags, args, colours) == RenderItem(f, i, flags, args, colours)
    decreases |f| - i, 0
  {
    hide Meaning, Padded, IsDigit, NumberEnd, NumberFrom;
    if i < |f| {
      if IsDigit(f[i]) && f[i] != 0x30 {
        NumberShift(p, f, i, 0);
        NumberShift(p, f, i + 1, 0);
        ItemShift(p, f, NumberEnd(f, i + 1), flags.SetWidth(NumberFrom(f, i, 0)), args, colours);
      } else {
        match Meaning(f[i], flags, args, colours)
        case Broken =>
        case More(flags', args') => ItemShift(p, f, i + 1, flags', args', colours);
        case Tint(_) => ItemShift(p, f, i + 1, flags, args, colours);
        case Colour(a) =>
          if a == 0 {
            ItemShift(p, f, i + 1, flags, args, colours);
          } else {
            RenderShift(p, f, i + 1, args, colours);
          }
        case Show(_, _, args') => RenderShift(p, f, i + 1, args', colours);
      }
    }
  }

  // ---------- in front of a suffix ----------

  /** The arguments that a format leaves. */
  function Rest(fmt: Text, i: nat, args: seq<Arg>, colours: Colours): seq<Arg>
    requires i <= |fmt|
    decreases |fmt| - i, 1
  {
    if i == |fmt| then args
    else if fmt[i] == PERCENT then RestItem(fmt, i + 1, NO_FLAGS, args, colours)
    else Rest(fmt, i + 1, args, colours)
  }

  function RestItem(fmt: Text, i: nat, f: Flags, args: seq<Arg>, colours: Colours): seq<Arg>
    requires i <= |fmt|
    decreases |fmt| - i, 0
  {
    if i == |fmt| then args
    else if IsDigit(fmt[i]) && fmt[i] != 0x30 then
      RestItem(fmt, NumberEnd(fmt, i + 1), f.SetWidth(NumberFrom(fmt, i, 0)), args, colours)
    else match Meaning(fmt[i], f, args, colours)
      case Broken => args
      case More(f', args') => RestItem(fmt, i + 1, f', args', colours)
      case Tint(_) => RestItem(fmt, i + 1, f, args, colours)
      case Colour(a) => if a == 0 then RestItem(fmt, i + 1, f, args, colours) else Rest(fmt, i + 1, args, colours)
      case Show(_, _, args') => Rest(fmt, i + 1, args', colours)
  }

  lemma {:induction false} NumberBefore(f: Text, g: Text, i: nat, n: nat)
    requires i <= |f| && NumberEnd(f, i) < |f|
    ensures NumberEnd(Join(f, g), i) == NumberEnd(f, i)
    ensures NumberFrom(Join(f, g), i, n) == NumberFrom(f, i, n)
    decreases |f| - i
  {
    if IsDigit(f[i]) {
      NumberBefore(f, g, i + 1, (n * 10 + f[i] - 0x30) % TWO64);
    }
  }

  lemma PrependTwice(a: seq<wchar>, b: Option<seq<wchar>>, c: Option<seq<wchar>>)
    requires b.Some?
    ensures Prepend(a, Prepend(b.value, c)) == Prepend(Prepend(a, b).value, c)
  {
    if c.Some? {
      Assoc(a, b.value, c.value);
    }
  }

  /** A complete format in front of another is rendered as it is alone. */
  lemma {:induction false} RenderAppend(f: Text, g: Text, i: nat, args: seq<Arg>, colours: Colours)
    requires i <= |f| && Render(f, i, args, colours).Some?
    ensures Render(Join(f, g), i, args, colours)
      == Prepend(Render(f, i, args, colours).value, Render(g, 0, Rest(f, i, args, colours), colours))
    decreases |f| - i, 1
  {
    hide RenderItem, RestItem;
    if i == |f| {
      RenderShift(f, g, 0, args, colours);
      PrependNothing(Render(g, 0, args, colours));
    } else if f[i] == PERCENT {
      ItemAppend(f, g, i + 1, NO_FLAGS, args, colours);
    } else {
      RenderAppend(f, g, i + 1, args, colours);
      PrependTwice([f[i]], Render(f, i + 1, args, colours), Render(g, 0, Rest(f, i + 1, args, colours), colours));
    }
  }

  lemma PrependNothing(r: Option<seq<wchar>>)
    ensures Prepend([], r) == r
  {
    if r.Some? {
      assert [] + r.value == r.value;
    }
  }

  lemma {:induction false} ItemAppend(f: Text, g: Text, i: nat, flags: Flags, args: seq<Arg>, colours: Colours)
    requires i <= |f| && RenderItem(f, i, flags, args, colours).Some?
    ensures RenderItem(Join(f, g), i, flags, args, colours)
      == Prepend(RenderItem(f, i, flags, args, colours).value,
                 Render(g, 0, RestItem(f, i, flags, args, colours), colours))
    decreases |f| - i, 0
  {
    hide Meaning, Padded, IsDigit, NumberEnd, NumberFrom, Render, Rest, Prepend;
    if IsDigit(f[i]) && f[i] != 0x30 {
      NumberEnds(f, i);
      NumberBefore(f, g, i, 0);
      NumberBefore(f, g, i + 1, 0);
      ItemAppend(f, g, NumberEnd(f, i + 1), flags.SetWidth(NumberFrom(f, i, 0)), args, colours);
    } else {
      match Meaning(f[i], flags, args, colours)
      case More(flags', args') => ItemAppend(f, g, i + 1, flags', args', colours);
      case Tint(_) => ItemAppend(f, g, i + 1, flags, args, colours);
      case Colour(a) =>
        if a == 0 {
          ItemAppend(f, g, i + 1, flags, args, colours);
        } else {
          RenderAppend(f, g, i + 1, args, colours);
        }
      case Show(flags', text, args') =>
        ShowSome(Padded(flags', text), Render(f, i + 1, args', colours));
        RenderAppend(f, g, i + 1, args', colours);
        PrependTwice(Padded(flags', text), Render(f, i + 1, args', colours),
                     Render(g, 0, Rest(f, i + 1, args', colours), colours));
    }
  }

  lemma ShowSome(a: seq<wchar>, r: Option<seq<wchar>>)
    ensures Prepend(a, r).Some? <==> r.Some?
  {
  }

  /** The digits of a width go on to their end. */
  lemma NumberEnds(f: Text, i: nat)
    requires i < |f| && IsDigit(f[i])
    ensures NumberEnd(f, i) == NumberEnd(f, i + 1)
  {
  }
}
