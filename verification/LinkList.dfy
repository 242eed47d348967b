/**
  * The intrusive doubly linked list: entries in a ring, one of which is the head.
  */
module LinkList {
  import opened Seqs

  /** A link inside a record; its address is what the place of the record is computed from. */
  class ListEntry {
    const at: nat
    var flink: ListEntry?
    var blink: ListEntry?

    constructor (at: nat)
      ensures this.at == at && flink == null && blink == null
    {
      this.at := at;
      flink, blink := null, null;
    }
  }

  ghost predicate Distinct(nodes: seq<ListEntry>) {
    forall i, j :: 0 <= i < j < |nodes| ==> nodes[i] != nodes[j]
  }

  ghost predicate Linked(x: ListEntry, y: ListEntry)
    reads x, y
  {
    x.flink == y && y.blink == x
  }

  /** Each entry and the one behind it know each other. */
  ghost predicate Chain(nodes: seq<ListEntry>)
    reads nodes
  {
    forall i, j :: 0 <= i && j == i + 1 && j < |nodes| ==> Linked(nodes[i], nodes[j])
  }

  /** The entries, in this order, form a ring. */
  ghost predicate Ring(nodes: seq<ListEntry>)
    reads nodes
  {
    nodes != [] && Distinct(nodes) && Chain(nodes) && Linked(nodes[|nodes| - 1], nodes[0])
  }

  /** A head and the entries behind it. */
  ghost predicate List(head: ListEntry, items: seq<ListEntry>)
    reads head, items
  {
    Ring([head] + items)
  }

  // ---------- rings ----------

  lemma ChainSnoc(a: seq<ListEntry>, x: ListEntry)
    requires Chain(a) && (a != [] ==> Linked(a[|a| - 1], x))
    ensures Chain(a + [x])
  {
  }

  lemma ChainTail(x: ListEntry, a: seq<ListEntry>)
    requires Chain([x] + a)
    ensures Chain(a) && (a != [] ==> Linked(x, a[0]))
  {
    var s := [x] + a;
    assert forall i :: 0 <= i < |a| ==> a[i] == s[i + 1];
    assert a != [] ==> Linked(s[0], s[1]);
  }

  lemma DistinctRotate(x: ListEntry, a: seq<ListEntry>)
    requires Distinct([x] + a)
    ensures Distinct(a + [x])
  {
    var s := [x] + a;
    assert forall i :: 0 <= i < |a| ==> a[i] == s[i + 1];
    assert s[0] == x;
  }

  /** A ring can be read from any of its entries. */
  lemma RotateOne(x: ListEntry, a: seq<ListEntry>)
    requires Ring([x] + a)
    ensures Ring(a + [x])
  {
    hide Chain, Distinct;
    ChainTail(x, a);
    DistinctRotate(x, a);
    if a != [] {
      assert ([x] + a)[|a|] == a[|a| - 1];
    }
    ChainSnoc(a, x);
  }

  lemma {:induction false} Rotate(a: seq<ListEntry>, b: seq<ListEntry>)
    requires Ring(a + b)
    ensures Ring(b + a)
  {
    hide Ring;
    if a == [] {
      assert b + a == a + b;
    } else {
      assert a + b == [a[0]] + (a[1..] + b);
      RotateOne(a[0], a[1..] + b);
      assert (a[1..] + b) + [a[0]] == a[1..] + (b + [a[0]]);
      Rotate(a[1..], b + [a[0]]);
      assert (b + [a[0]]) + a[1..] == b + a;
    }
  }

  lemma RotateBack(a: seq<ListEntry>, b: seq<ListEntry>)
    ensures Ring(a + b) <==> Ring(b + a)
  {
    hide Ring;
    if Ring(a + b) {
      Rotate(a, b);
    }
    if Ring(b + a) {
      Rotate(b, a);
    }
  }

  // ---------- operations ----------

  method InitializeListHead(head: ListEntry)
    modifies head
    ensures List(head, [])
  {
    head.flink := head;
    head.blink := head;
  }

  method IsListEmpty(head: ListEntry, ghost items: seq<ListEntry>) returns (empty: bool)
    requires List(head, items)
    ensures empty <==> items == []
  {
    empty := head.flink == head;
    ghost var nodes := [head] + items;
    assert items != [] ==> Linked(nodes[0], nodes[1]) && nodes[0] != nodes[1];
  }

  method InsertTailList(head: ListEntry, entry: ListEntry, ghost items: seq<ListEntry>)
    requires List(head, items) && entry !in [head] + items
    modifies head, head.blink, entry
    ensures List(head, items + [entry])
  {
    ghost var was := [head] + items;
    assert was[0] == head;
    var last := head.blink;
    entry.flink := head;
    entry.blink := last;
    last.flink := entry;
    head.blink := entry;
    ChainSnoc(was, entry);
    assert [head] + (items + [entry]) == was + [entry];
  }

  method InsertHeadList(head: ListEntry, entry: ListEntry, ghost items: seq<ListEntry>)
    requires List(head, items) && entry !in [head] + items
    modifies head, head.flink, entry
    ensures List(head, [entry] + items)
  {
    ghost var was := items + [head];
    Rotate([head], items);
    assert was[|items|] == head && entry !in was;
    var first := head.flink;
    entry.flink := first;
    entry.blink := head;
    first.blink := entry;
    head.flink := entry;
    ChainSnoc(was, entry);
    assert was + [entry] == items + [head, entry];
    Rotate(items, [head, entry]);
    assert [head, entry] + items == [head] + ([entry] + items);
  }

  /** What is around an entry of a ring. */
  lemma Around(rest: seq<ListEntry>, entry: ListEntry)
    requires Ring(rest + [entry])
    ensures entry !in rest && Distinct(rest) && Chain(rest)
    ensures rest != [] ==> Linked(rest[|rest| - 1], entry) && Linked(entry, rest[0])
    ensures rest == [] ==> Linked(entry, entry)
  {
    var s := rest + [entry];
    assert s[|rest|] == entry;
    assert forall i :: 0 <= i < |rest| ==> s[i] == rest[i];
    assert rest != [] ==> Linked(s[|rest| - 1], s[|rest|]);
  }

  /** The ring without an entry, read so that the entry comes last. */
  lemma EntryLast(nodes: seq<ListEntry>, k: nat)
    requires Ring(nodes) && k < |nodes|
    ensures Ring(nodes[k + 1..] + nodes[..k] + [nodes[k]])
  {
    hide Ring;
    var a, b, entry := nodes[..k], nodes[k + 1..], nodes[k];
    assert nodes == (a + [entry]) + b;
    Rotate(a + [entry], b);
    assert b + (a + [entry]) == b + a + [entry];
  }

  method RemoveEntryList(entry: ListEntry, ghost nodes: seq<ListEntry>, ghost k: nat)
    requires Ring(nodes) && k < |nodes| && nodes[k] == entry
    modifies entry.blink, entry.flink
    ensures |nodes| > 1 ==> Ring(Without(nodes, k))
    ensures |nodes| == 1 ==> Ring(nodes)
  {
    ghost var rest := nodes[k + 1..] + nodes[..k];
    EntryLast(nodes, k);
    Around(rest, entry);
    var next := entry.flink;
    var prev := entry.blink;
    prev.flink := next;
    next.blink := prev;
    if rest != [] {
      assert Ring(rest);
      Rotate(nodes[k + 1..], nodes[..k]);
    } else {
      assert nodes == [entry];
    }
  }

  /** A ring read from `entry1`, seen from `entry2`. */
  lemma BeforeSwap(entry1: ListEntry, entry2: ListEntry, a: seq<ListEntry>, b: seq<ListEntry>)
    requires Ring([entry1] + a + [entry2] + b)
    ensures Ring(b + ([entry1] + a) + [entry2])
    ensures b != [] ==> Linked(b[|b| - 1], entry1) && Linked(entry2, b[0])
    ensures b == [] ==> Linked(entry2, entry1)
    ensures entry1 != entry2
  {
    var rest := b + ([entry1] + a);
    Rotate([entry1] + a + [entry2], b);
    assert b + ([entry1] + a + [entry2]) == rest + [entry2];
    Around(rest, entry2);
    assert rest[|b|] == entry1;
    if b != [] {
      assert Linked(rest[|b| - 1], rest[|b|]);
    }
  }

  /**
    * Takes `entry2` out and puts it in front of `entry1`.  `a` are the entries from
    * `entry1` to `entry2`, `b` those from `entry2` on round to `entry1`.  When there
    * are none, `entry2` stands there already, and the ring is lost.
    */
  method SwapListEntries(entry1: ListEntry, entry2: ListEntry, ghost a: seq<ListEntry>, ghost b: seq<ListEntry>)
    requires Ring([entry1] + a + [entry2] + b)
    modifies entry1, entry2, entry1.blink, entry2.flink, entry2.blink
    ensures Ring([entry1] + a + b + [entry2]) <==> b != []
    ensures b == [] ==> entry2.flink == entry2 && entry1.blink == entry2
  {
    ghost var rest := b + ([entry1] + a);
    BeforeSwap(entry1, entry2, a, b);
    Around(rest, entry2);
    var flink2 := entry2.flink;
    var blink2 := entry2.blink;
    var blink1 := entry1.blink;
    blink2.flink := flink2;
    flink2.blink := blink2;
    ghost var was := [entry1] + a + b;
    if b != [] {
      assert Ring(rest);
      Rotate(b, [entry1] + a);
      assert Ring(was) && was[0] == entry1;
      assert forall x :: x in was ==> x in rest;
    }
    entry2.flink := entry1;
    entry2.blink := blink1;
    blink1.flink := entry2;
    entry1.blink := entry2;
    if b != [] {
      ChainSnoc(was, entry2);
    } else {
      assert (was + [entry2])[0] == entry1;
      assert (was + [entry2])[|was|] == entry2;
    }
  }

  /** Entry `j` taken out and put back in front of entry `i`. */
  function MovedBefore<T>(s: seq<T>, i: nat, j: nat): seq<T>
    requires i < |s| && j < |s| && i != j
  {
    if i < j then s[..i] + [s[j]] + s[i..j] + s[j + 1..]
    else s[..j] + s[j + 1..i] + [s[j]] + s[i..]
  }

  /** A list and its ring read from `x`. */
  lemma ListFrom(head: ListEntry, p: seq<ListEntry>, x: ListEntry, q: seq<ListEntry>)
    ensures List(head, p + [x] + q) <==> Ring([x] + q + ([head] + p))
  {
    hide Ring;
    RotateBack([head] + p, [x] + q);
    assert [head] + (p + [x] + q) == ([head] + p) + ([x] + q);
  }

  /** The entries from entry `i` of a list to entry `j`, and from there round to entry `i`. */
  ghost function From(head: ListEntry, items: seq<ListEntry>, i: nat, j: nat): (seq<ListEntry>, seq<ListEntry>)
    requires i < |items| && j < |items| && i != j
  {
    if i < j then (items[i + 1..j], items[j + 1..] + ([head] + items[..i]))
    else (items[i + 1..] + ([head] + items[..j]), items[j + 1..i])
  }

  lemma ListAsRing(head: ListEntry, items: seq<ListEntry>, i: nat, j: nat)
    requires i < |items| && j < |items| && i != j
    ensures var (a, b) := From(head, items, i, j);
            List(head, items) <==> Ring([items[i]] + a + [items[j]] + b)
  {
    hide Ring, List;
    var (a, b) := From(head, items, i, j);
    if i < j {
      assert items == items[..i] + [items[i]] + (a + [items[j]] + items[j + 1..]);
      ListFrom(head, items[..i], items[i], a + [items[j]] + items[j + 1..]);
      assert [items[i]] + (a + [items[j]] + items[j + 1..]) + ([head] + items[..i]) == [items[i]] + a + [items[j]] + b;
    } else {
      assert items == (items[..j] + [items[j]] + b) + [items[i]] + items[i + 1..];
      ListFrom(head, items[..j] + [items[j]] + b, items[i], items[i + 1..]);
      assert [items[i]] + items[i + 1..] + ([head] + (items[..j] + [items[j]] + b)) == [items[i]] + a + [items[j]] + b;
    }
  }

  lemma MovedAsRing(head: ListEntry, items: seq<ListEntry>, i: nat, j: nat)
    requires i < |items| && j < |items| && i != j
    ensures var (a, b) := From(head, items, i, j);
            List(head, MovedBefore(items, i, j)) <==> Ring([items[i]] + a + b + [items[j]])
  {
    hide Ring, List;
    var (a, b) := From(head, items, i, j);
    if i < j {
      MovedForward(items, i, j);
      ListFrom(head, items[..i] + [items[j]], items[i], a + items[j + 1..]);
      assert [items[i]] + (a + items[j + 1..]) + ([head] + (items[..i] + [items[j]]))
          == [items[i]] + a + b + [items[j]];
    } else {
      MovedBackward(items, i, j);
      ListFrom(head, items[..j] + b + [items[j]], items[i], items[i + 1..]);
      assert [items[i]] + items[i + 1..] + ([head] + (items[..j] + b + [items[j]])) == [items[i]] + a + b + [items[j]];
    }
  }

  lemma MovedForward<T>(s: seq<T>, i: nat, j: nat)
    requires i < j < |s|
    ensures MovedBefore(s, i, j) == (s[..i] + [s[j]]) + [s[i]] + (s[i + 1..j] + s[j + 1..])
  {
    assert s[i..j] == [s[i]] + s[i + 1..j];
  }

  lemma MovedBackward<T>(s: seq<T>, i: nat, j: nat)
    requires j < i < |s|
    ensures MovedBefore(s, i, j) == (s[..j] + s[j + 1..i] + [s[j]]) + [s[i]] + s[i + 1..]
  {
    assert s[i..] == [s[i]] + s[i + 1..];
  }

  /** Seen as a list, exactly that entry has moved, unless it stood in front already. */
  method SwapInList(head: ListEntry, ghost items: seq<ListEntry>, entry1: ListEntry, entry2: ListEntry,
                    ghost i: nat, ghost j: nat)
    requires List(head, items) && i < |items| && j < |items| && i != j
    requires items[i] == entry1 && items[j] == entry2
    modifies entry1, entry2, entry1.blink, entry2.flink, entry2.blink
    ensures List(head, MovedBefore(items, i, j)) <==> j + 1 != i
  {
    hide Ring, List, MovedBefore;
    ghost var (a, b) := From(head, items, i, j);
    ListAsRing(head, items, i, j);
    SwapListEntries(entry1, entry2, a, b);
    MovedAsRing(head, items, i, j);
  }

  // ---------- runs ----------

  datatype Op = AddHead(entry: ListEntry) | AddTail(entry: ListEntry) | Remove(entry: ListEntry)

  /** Entries are added only when they are not in the list, and taken out only when they are. */
  ghost predicate Legal(head: ListEntry, items: seq<ListEntry>, op: Op) {
    if op.Remove? then op.entry in items else op.entry != head && op.entry !in items
  }

  function {:induction false} EntryIndex(items: seq<ListEntry>, x: ListEntry): (k: nat)
    requires x in items
    ensures k < |items| && items[k] == x
  {
    if items[0] == x then 0 else 1 + EntryIndex(items[1..], x)
  }

  /** What an operation does to the sequence of entries. */
  ghost function Effect(items: seq<ListEntry>, op: Op): seq<ListEntry> {
    match op
    case AddHead(x) => [x] + items
    case AddTail(x) => items + [x]
    case Remove(x) => if x in items then Without(items, EntryIndex(items, x)) else items
  }

  ghost predicate AllLegal(head: ListEntry, items: seq<ListEntry>, ops: seq<Op>)
    decreases |ops|
  {
    ops == [] || (Legal(head, items, ops[0]) && AllLegal(head, Effect(items, ops[0]), ops[1..]))
  }

  ghost function Effects(items: seq<ListEntry>, ops: seq<Op>): seq<ListEntry>
    decreases |ops|
  {
    if ops == [] then items else Effects(Effect(items, ops[0]), ops[1..])
  }

  ghost function Involved(head: ListEntry, items: seq<ListEntry>, ops: seq<Op>): set<ListEntry> {
    {head} + (set x | x in items) + (set op | op in ops :: op.entry)
  }

  method Step(head: ListEntry, op: Op, ghost items: seq<ListEntry>, ghost all: set<ListEntry>)
    requires List(head, items) && Legal(head, items, op)
    requires head in all && (forall x :: x in items ==> x in all) && op.entry in all
    modifies all
    ensures List(head, Effect(items, op))
  {
    hide Ring;
    Neighbours(head, items);
    assert head in [head] + items;
    match op
    case AddHead(x) => InsertHeadList(head, x, items);
    case AddTail(x) => InsertTailList(head, x, items);
    case Remove(x) => TakeOut(head, x, items);
  }

  method TakeOut(head: ListEntry, x: ListEntry, ghost items: seq<ListEntry>)
    requires List(head, items) && x in items
    modifies x.blink, x.flink
    ensures List(head, Without(items, EntryIndex(items, x)))
  {
    hide Ring;
    ghost var k := EntryIndex(items, x);
    assert ([head] + items)[k + 1] == x;
    RemoveEntryList(x, [head] + items, k + 1);
    assert Without([head] + items, k + 1) == [head] + Without(items, k);
  }

  /** Links lead to entries of the list. */
  lemma Neighbours(head: ListEntry, items: seq<ListEntry>)
    requires List(head, items)
    ensures forall x :: x in [head] + items ==> x.flink in [head] + items && x.blink in [head] + items
  {
    var s := [head] + items;
    forall x | x in s ensures x.flink in s && x.blink in s {
      var k :| 0 <= k < |s| && s[k] == x;
      EntryLast(s, k);
      Around(s[k + 1..] + s[..k], x);
    }
  }

  /** A list stays a list over every run of operations, with the entries that the run leaves. */
  method Run(head: ListEntry, ops: seq<Op>, ghost items: seq<ListEntry>)
    requires List(head, items) && AllLegal(head, items, ops)
    modifies Involved(head, items, ops)
    ensures List(head, Effects(items, ops))
  {
    hide List, Legal, Effect;
    ghost var now, all := items, Involved(head, items, ops);
    var k := 0;
    while k < |ops|
      invariant 0 <= k <= |ops| && List(head, now)
      invariant AllLegal(head, now, ops[k..]) && Effects(now, ops[k..]) == Effects(items, ops)
      invariant forall x :: x in now ==> x in all
    {
      EffectStays(now, ops[k]);
      assert ops[k..][1..] == ops[k + 1..];
      Step(head, ops[k], now, all);
      now := Effect(now, ops[k]);
      k := k + 1;
    }
  }

  lemma EffectStays(items: seq<ListEntry>, op: Op)
    ensures forall x :: x in Effect(items, op) ==> x in items || x == op.entry
  {
  }

  function Reversed<T>(s: seq<T>): seq<T> {
    seq(|s|, i requires 0 <= i < |s| => s[|s| - 1 - i])
  }

  /** The links of a list, entry by entry; the head counts as entry zero. */
  lemma LinksOf(head: ListEntry, items: seq<ListEntry>, k: nat)
    requires List(head, items) && k <= |items|
    ensures var s := [head] + items;
            && s[k].flink == (if k < |items| then s[k + 1] else head)
            && s[k].blink == (if k > 0 then s[k - 1] else s[|items|])
            && (s[k] == head <==> k == 0)
  {
    var s := [head] + items;
    assert s[0] == head;
    assert k > 0 ==> Linked(s[k - 1], s[k]) && s[0] != s[k];
    assert k < |items| ==> Linked(s[k], s[k + 1]);
  }

  /** Following the forward links from the head back to the head. */
  method WalkForward(head: ListEntry, ghost items: seq<ListEntry>) returns (seen: seq<ListEntry>)
    requires List(head, items)
    ensures seen == items
  {
    hide List, Ring;
    ghost var s := [head] + items;
    seen := [];
    LinksOf(head, items, 0);
    var at := head.flink;
    if items != [] {
      LinksOf(head, items, 1);
    }
    while at != head
      invariant |seen| <= |items| && seen == items[..|seen|]
      invariant at == if |seen| < |items| then s[|seen| + 1] else head
      invariant at == head <==> |seen| == |items|
      decreases |items| - |seen|
    {
      ghost var k := |seen| + 1;
      LinksOf(head, items, k);
      if k < |items| {
        LinksOf(head, items, k + 1);
      }
      seen := seen + [at];
      at := at.flink;
    }
  }

  /** Following the backward links sees the same entries the other way round. */
  method WalkBackward(head: ListEntry, ghost items: seq<ListEntry>) returns (seen: seq<ListEntry>)
    requires List(head, items)
    ensures seen == Reversed(items)
  {
    hide List, Ring;
    ghost var s := [head] + items;
    seen := [];
    LinksOf(head, items, 0);
    LinksOf(head, items, |items|);
    var at := head.blink;
    while at != head
      invariant |seen| <= |items| && seen == Reversed(items)[..|seen|]
      invariant at == s[|items| - |seen|]
      invariant at == head <==> |seen| == |items|
      decreases |items| - |seen|
    {
      ghost var k := |items| - |seen|;
      LinksOf(head, items, k);
      LinksOf(head, items, k - 1);
      seen := seen + [at];
      at := at.blink;
    }
  }
}
