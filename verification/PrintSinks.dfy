/**
  * Where printed text ends up: a string of bounded size, or a string in pool
  * memory that grows as needed.  A sink takes the chunks in the order in which
  * the engine sends them; the two share no state.
  */
module PrintSinks {
  import opened Machine
  import opened Seqs
  import opened Strings
  import opened Numbers
  import opened PrintSpec
  import opened Printing
  import PrintFormat

  /** How much larger than needed a pool string is made. */
  const GROWTH := 200

  /** The first `n` units, or all if there are fewer. */
  function Cut(t: seq<wchar>, n: nat): seq<wchar> {
    if |t| <= n then t else t[..n]
  }

  lemma CutTwice(a: seq<wchar>, b: seq<wchar>, n: nat)
    ensures Cut(Cut(a, n) + b, n) == Cut(a + b, n)
  {
  }

  lemma CutAt(a: seq<wchar>, b: seq<wchar>, n: nat, k: nat)
    requires |a| <= n && k == if |a| + |b| > n then n - |a| else |b|
    ensures a + b[..k] == Cut(a + b, n)
  {
  }

  method AllocateUnits(n: nat, granted: bool) returns (a: array?<wchar>)
    ensures a != null <==> granted
    ensures a != null ==> fresh(a) && a.Length == n
  {
    if granted {
      a := new wchar[n];
    } else {
      a := null;
    }
  }

  /** There is always memory. */
  ghost predicate Ample(memory: nat -> bool) {
    forall k: nat :: memory(k)
  }

  /** Copies the first `n` units of `s` into `a` from `at` on. */
  method CopyUnits(a: array<wchar>, at: nat, s: seq<wchar>, n: nat)
    requires n <= |s| && at + n <= a.Length
    modifies a
    ensures a[..at + n] == old(a[..at]) + s[..n]
    ensures forall i :: at + n <= i < a.Length ==> a[i] == old(a[i])
  {
    hide Overwrite;
    ghost var m := a[..];
    OverwriteNothing(m, at);
    var i := 0;
    while i < n
      invariant 0 <= i <= n && a[..] == Overwrite(m, at, s[..i])
    {
      assert s[..i + 1] == s[..i] + [s[i]];
      Put(a, at + i, s[i], m, at, s[..i]);
      i := i + 1;
    }
    OverwriteParts(m, at, s[..n]);
    assert a[..][at + n..] == m[at + n..];
  }

  class PoolString {
    var str: array?<wchar>
    var len: nat
    var maxlen: nat
    const memory: nat -> bool  // whether there is memory when it is asked for the first time, the second, ...
    var asked: nat
    ghost var refused: nat  // how often there was no memory

    constructor (str: array?<wchar>, maxlen: nat, memory: nat -> bool)
      ensures this.str == str && len == 0 && this.maxlen == maxlen && this.memory == memory
    {
      this.memory := memory;
      asked := 0;
      this.str := str;
      len := 0;
      this.maxlen := maxlen;
      refused := 0;
    }

    ghost function Content(): seq<wchar>
      reads this, str
    {
      if str != null && len <= str.Length then str[..len] else []
    }

    /** A chunk of `n` units can be taken, cut if need be, without leaving the memory of the string. */
    ghost predicate Room(n: nat)
      reads this
    {
      && len <= maxlen
      && (maxlen > 0 ==>
            str != null && (maxlen < str.Length || len + n < (if maxlen < str.Length then maxlen else str.Length)))
    }

    /** Units that are none of the string's business: behind the terminator, and all if the limit is zero. */
    predicate Beyond(i: int)
      reads this`maxlen
    {
      maxlen < i || (maxlen == 0 && i == 0)
    }

    /** Appends a chunk, cut to the limit, and terminates the string; a limit of zero stores nothing. */
    method AppendCut(chunk: Text)
      requires Room(|chunk|)
      modifies this`len, str
      ensures len <= maxlen && Content() == Cut(old(Content()) + chunk, maxlen)
      ensures len <= old(len) + |chunk|
      ensures maxlen > 0 ==> len < str.Length && str[len] == 0
      ensures str != null ==> forall i :: Beyond(i) && i < str.Length ==> str[i] == old(str[i])
    {
      hide Cut;
      var n := |chunk|;
      if len + n > maxlen {
        n := maxlen - len;
      }
      if maxlen > 0 {
        CopyUnits(str, len, chunk, n);
      }
      CutAt(old(Content()), chunk, maxlen, n);
      len := len + n;
      if len < maxlen {
        str[len] := 0;
      } else if maxlen != 0 {
        str[maxlen] := 0;
      }
    }

    /** A string in pool memory: absent, or terminated with room for the terminator. */
    ghost predicate Pooled()
      reads this, str
    {
      if str == null then len == 0 && maxlen == 0 else len < maxlen == str.Length && str[len] == 0
    }

    /** A copy of the string, or of what fits; the old memory is given up, also when there is no new. */
    method Reallocate(size: nat)
      requires len <= if str == null then 0 else str.Length
      modifies this`str, this`asked, this`refused
      ensures refused == old(refused) + if str == null then 1 else 0
      ensures str != null <==> size > 0 && memory(old(asked))
      ensures asked == old(asked) + if size > 0 then 1 else 0
      ensures str == null || (fresh(str) && str.Length == size)
      ensures str != null && len <= size ==> str[..len] == old(Content())
      ensures str != null && size < len ==> str[..] == old(Content())[..size]
    {
      var a: array?<wchar> := null;
      if size != 0 {
        a := AllocateUnits(size, memory(asked));
        asked := asked + 1;
      }
      if a != null && str != null {
        var kept := if len < size then len else size;
        CopyUnits(a, 0, str[..len], kept);
        assert str[..len][..len] == str[..len];
      }
      if a == null {
        refused := refused + 1;
      }
      str := a;
    }

    /** Appends a chunk and grows the string for it; when there is no memory the string is lost. */
    method AppendGrowing(chunk: Text)
      requires Pooled()
      modifies this, str
      ensures Pooled() && (str == old(str) || str == null || fresh(str))
      ensures refused == old(refused) + if str == null then 1 else 0
      ensures Content() == if str == null then [] else old(Content()) + chunk
      ensures old(len) + |chunk| < old(maxlen) ==> str == old(str) && asked == old(asked)
      ensures old(len) + |chunk| >= old(maxlen) ==>
        && asked == old(asked) + 1 && (str != null <==> memory(old(asked)))
        && (str != null ==> str.Length == old(len) + |chunk| + 201)
      ensures Ample(memory) ==> str != null
    {
      var newlen := len + |chunk| + 1;
      ghost var before := Content();
      if newlen > maxlen {
        newlen := newlen + GROWTH;
        maxlen := newlen;
        Reallocate(newlen);
        if str == null {
          len := 0;
          maxlen := 0;
        }
      }
      AppendCut(chunk);
    }

    /** The chunks of one call of the engine, into a string of bounded size. */
    method TakeCut(events: seq<Event>)
      requires Fits(|Sent(events)|) && events != [] && events[|events| - 1].Out?
      modifies this`len, str
      ensures len <= maxlen && Content() == Cut(old(Content()) + Sent(events), maxlen)
      ensures maxlen > 0 ==> len < str.Length && str[len] == 0
      ensures forall i :: Beyond(i) && i < str.Length ==> str[i] == old(str[i])
    {
      hide Cut, Sent;
      ghost var before := Content();
      Nothing(before, events, maxlen);
      var k := 0;
      while k < |events|
        invariant 0 <= k <= |events|
        invariant len <= maxlen && Content() == Cut(before + Sent(events[..k]), maxlen)
        invariant len <= old(len) + |Sent(events[..k])|
        invariant k == |events| && maxlen > 0 ==> len < str.Length && str[len] == 0
        invariant forall i :: Beyond(i) && i < str.Length ==> str[i] == old(str[i])
      {
        SentStep(events, k);
        SentGrows(events, k + 1);
        if events[k].Out? {
          Next(before, events, k);
          AppendCut(events[k].chunk);
        } else {
          assert Sent(events[..k]) + [] == Sent(events[..k]);
        }
        k := k + 1;
      }
      assert events[..k] == events;
    }

    /**
      * The chunks of one call of the engine, into a string in pool memory.  `lost`
      * is the number of chunks up to the last one there was no memory for.
      */
    method TakeGrowing(events: seq<Event>) returns (ghost lost: nat)
      requires Pooled()
      modifies this, str
      ensures Pooled() && lost <= |events|
      ensures old(refused) <= refused && (lost == 0 <==> refused == old(refused))
      ensures Ample(memory) ==> lost == 0
      ensures lost == 0 ==> Content() == old(Content()) + Sent(events)
      ensures lost > 0 ==> Content() == Sent(events[lost..])
      ensures str == old(str) || str == null || fresh(str)
      ensures lost == 0 && (old(str) != null || (events != [] && events[|events| - 1].Out?)) ==> str != null
    {
      hide Sent, Pooled, Content;
      ghost var before := Content();
      lost := 0;
      var k := 0;
      Nowhere(before, events);
      while k < |events|
        invariant 0 <= k <= |events| && lost <= k && Pooled()
        invariant old(refused) <= refused && (lost == 0 <==> refused == old(refused))
        invariant Ample(memory) ==> lost == 0
        invariant Content() == Kept(before, events, lost, k)
        invariant str == old(str) || str == null || fresh(str)
        invariant lost == 0 && (old(str) != null || (0 < k && events[k - 1].Out?)) ==> str != null
      {
        KeptStep(before, events, lost, k);
        if events[k].Out? {
          AppendGrowing(events[k].chunk);
          if str == null {
            lost := k + 1;
            KeptNone(before, events, lost);
          }
        }
        k := k + 1;
      }
      assert events[..k] == events;
    }

    /** Text of `n` units fits below the memory's end, or is cut before it. */
    ghost predicate Fits(n: nat)
      reads this
    {
      && str != null && len <= maxlen && len <= str.Length
      && (maxlen < str.Length || len + n < (if maxlen < str.Length then maxlen else str.Length))
    }

    lemma Next(before: seq<wchar>, events: seq<Event>, k: nat)
      requires k < |events| && events[k].Out?
      ensures Cut(Cut(before + Sent(events[..k]), maxlen) + events[k].chunk, maxlen)
        == Cut(before + Sent(events[..k + 1]), maxlen)
    {
      SentStep(events, k);
      CutTwice(before + Sent(events[..k]), events[k].chunk, maxlen);
      Assoc(before, Sent(events[..k]), events[k].chunk);
    }
  }

  /** The string after `k` chunks when the last loss was at chunk `lost`. */
  ghost function Kept(before: seq<wchar>, events: seq<Event>, lost: nat, k: nat): seq<wchar>
    requires lost <= k <= |events|
  {
    if lost == 0 then before + Sent(events[..k]) else Sent(events[lost..k])
  }

  lemma KeptStep(before: seq<wchar>, events: seq<Event>, lost: nat, k: nat)
    requires lost <= k < |events|
    ensures Kept(before, events, lost, k + 1) == Kept(before, events, lost, k) + EventText(events[k])
    ensures !events[k].Out? ==> Kept(before, events, lost, k + 1) == Kept(before, events, lost, k)
  {
    hide Sent;
    SentStep(events, k);
    assert events[lost..k + 1] == events[lost..k] + [events[k]];
    SentSnoc(events[lost..k], events[k]);
    Assoc(before, Sent(events[..k]), EventText(events[k]));
  }

  lemma KeptNone(before: seq<wchar>, events: seq<Event>, k: nat)
    requires 0 < k <= |events|
    ensures Kept(before, events, k, k) == []
  {
  }

  lemma Nowhere(before: seq<wchar>, events: seq<Event>)
    ensures Kept(before, events, 0, 0) == before
  {
    assert before + [] == before;
  }

  lemma Nothing(before: seq<wchar>, events: seq<Event>, n: nat)
    requires |before| <= n
    ensures Cut(before + Sent(events[..0]), n) == before
  {
    assert before + [] == before;
  }

  lemma SentStep(events: seq<Event>, k: nat)
    requires k < |events|
    ensures Sent(events[..k + 1]) == Sent(events[..k]) + EventText(events[k])
  {
    assert events[..k + 1] == events[..k] + [events[k]];
    SentSnoc(events[..k], events[k]);
  }

  lemma {:induction false} SentGrows(events: seq<Event>, k: nat)
    requires k <= |events|
    ensures |Sent(events[..k])| <= |Sent(events)|
  {
    if k == |events| {
      assert events[..k] == events;
    } else {
      var shorter := events[..|events| - 1];
      assert shorter[..k] == events[..k];
      SentGrows(shorter, k);
    }
  }

  // ---------- the printing functions ----------

  /** Printing to a string knows no colours. */
  const NO_COLOURS := Colours(0, 0, 0)

  predicate Complete(fmt: Text, args: seq<Arg>) {
    Render(fmt, 0, args, NO_COLOURS).Some?
  }

  /** The text of a format with its line ends. */
  function Printed(fmt: Text, args: seq<Arg>): seq<wchar>
    requires Complete(fmt, args)
  {
    Expand(Render(fmt, 0, args, NO_COLOURS).value)
  }

  /** The largest number of units that are stored: the subtraction wraps around for a size below two bytes. */
  function Limit(strSize: nat): nat {
    if strSize < 2 then TWO64 - 1 else strSize / 2 - 1
  }

  /**
    * Prints to a string of `strSize` bytes.  From four bytes on the text is cut and
    * terminated; with two or three bytes nothing at all is stored, not even a
    * terminator; below two bytes there is no limit.
    */
  method UnicodeVSPrint(str: array<wchar>, strSize: nat, fmt: Text, args: seq<Arg>) returns (len: nat)
    requires Complete(fmt, args)
    requires if strSize < 2 then |Printed(fmt, args)| < str.Length < TWO64 else strSize / 2 <= str.Length
    modifies str
    ensures len == |Cut(Printed(fmt, args), Limit(strSize))| <= str.Length
    ensures str[..len] == Cut(Printed(fmt, args), Limit(strSize))
    ensures Limit(strSize) > 0 ==> len < str.Length && str[len] == 0
    ensures strSize >= 2 ==> str[strSize / 2..] == old(str[strSize / 2..])
    ensures 2 <= strSize < 4 ==> len == 0 && str[..] == old(str[..])
    ensures strSize >= 4 && |Printed(fmt, args)| >= strSize / 2 ==>
      len == strSize / 2 - 1 && str[..len] == Printed(fmt, args)[..len] && str[len] == 0
    ensures (strSize >= 4 && |Printed(fmt, args)| < strSize / 2) || strSize < 2 ==>
      len == |Printed(fmt, args)| && str[..len] == Printed(fmt, args) && str[len] == 0
  {
    hide Render, Expand, Sent;
    var spc := new PoolString(str, Limit(strSize), _ => false);
    var events, _ := PrintFormat.Print(fmt, args, NO_COLOURS, false, 0);
    spc.TakeCut(events);
    assert [] + Printed(fmt, args) == Printed(fmt, args);
    len := spc.len;
  }

  /** Appends to a string in pool memory. */
  method CatPrint(spc: PoolString, fmt: Text, args: seq<Arg>) returns (str: array?<wchar>)
    requires spc.Pooled() && Complete(fmt, args)
    modifies spc, spc.str
    ensures spc.Pooled() && (spc.str == old(spc.str) || spc.str == null || fresh(spc.str))
    ensures str == spc.str && old(spc.refused) <= spc.refused && (Ample(spc.memory) ==> spc.refused == old(spc.refused))
    ensures spc.refused == old(spc.refused) ==> str != null && spc.Content() == old(spc.Content()) + Printed(fmt, args)
  {
    hide Render, Expand, Sent;
    var events, _ := PrintFormat.Print(fmt, args, NO_COLOURS, false, 0);
    ghost var lost := spc.TakeGrowing(events);
    str := spc.str;
  }

  datatype Call = Call(fmt: Text, args: seq<Arg>)

  predicate AllComplete(calls: seq<Call>) {
    forall i :: 0 <= i < |calls| ==> Complete(calls[i].fmt, calls[i].args)
  }

  /** The outputs of a run of calls, one behind the other. */
  function PrintedAll(calls: seq<Call>): seq<wchar>
    requires AllComplete(calls)
  {
    if calls == [] then []
    else PrintedAll(calls[..|calls| - 1]) + Printed(calls[|calls| - 1].fmt, calls[|calls| - 1].args)
  }

  /** A run of appending calls. */
  method CatPrintRun(spc: PoolString, calls: seq<Call>)
    requires spc.Pooled() && AllComplete(calls)
    modifies spc, spc.str
    ensures spc.Pooled() && (spc.str == old(spc.str) || spc.str == null || fresh(spc.str))
    ensures old(spc.refused) <= spc.refused && (Ample(spc.memory) ==> spc.refused == old(spc.refused))
    ensures spc.refused == old(spc.refused) ==> spc.Content() == old(spc.Content()) + PrintedAll(calls)
    ensures spc.refused == old(spc.refused) && calls != [] ==> spc.str != null
  {
    hide Printed, Complete;
    ghost var before := spc.Content();
    assert before + [] == before;
    var k := 0;
    while k < |calls|
      invariant 0 <= k <= |calls| && spc.Pooled()
      invariant spc.str == old(spc.str) || spc.str == null || fresh(spc.str)
      invariant old(spc.refused) <= spc.refused && (Ample(spc.memory) ==> spc.refused == old(spc.refused))
      invariant spc.refused == old(spc.refused) ==> spc.Content() == before + PrintedAll(calls[..k])
      invariant spc.refused == old(spc.refused) && k > 0 ==> spc.str != null
    {
      assert calls[..k + 1][..k] == calls[..k];
      Assoc(before, PrintedAll(calls[..k]), Printed(calls[k].fmt, calls[k].args));
      var _ := CatPrint(spc, calls[k].fmt, calls[k].args);
      k := k + 1;
    }
    assert calls[..k] == calls;
  }
}
