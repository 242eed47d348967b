/**
  * The chunks of the kernel heap as they lie in memory: each has a header with a
  * link into the ring of all chunks and, while it is free, a link into the ring of
  * its size class.  A chunk is known by its address; the header that a link is part
  * of is found by subtracting the link's offset.
  */
module KernelChunks {
  import opened Seqs
  import opened LinkList
  import opened KernelLists
  import opened HeapModel

  class ChunkHeader {
    const all: ListEntry
    var used: bool
    const free: ListEntry

    /** A chunk that is in no ring but its own two. */
    constructor (at: nat)
      ensures all.at == at && free.at == at + HEADER && !used
      ensures fresh(all) && fresh(free) && all != free
      ensures Ring([all]) && Ring([free])
    {
      all := new ListEntry(at);
      free := new ListEntry(at + HEADER);
      used := false;
      new;
      Init(all);
      Init(free);
    }
  }

  // ---------- what the rings stand for ----------

  /** The chunks of a ring, given which addresses are in use. */
  ghost function Cells(ring: seq<ListEntry>, inUse: set<nat>): (cs: seq<Chunk>)
    ensures |cs| == |ring|
  {
    seq(|ring|, i requires 0 <= i < |ring| => Chunk(ring[i].at, ring[i].at in inUse))
  }

  /** The chunk that a link of a free list is part of. */
  function Owner(link: ListEntry): nat {
    if link.at >= HEADER then link.at - HEADER else 0
  }

  ghost function Places(l: seq<ListEntry>): (r: seq<nat>)
    ensures |r| == |l|
  {
    seq(|l|, i requires 0 <= i < |l| => Owner(l[i]))
  }

  ghost function Buckets(lists: seq<seq<ListEntry>>): (r: seq<seq<nat>>)
    ensures |r| == |lists|
  {
    seq(|lists|, n requires 0 <= n < |lists| => Places(lists[n]))
  }

  /** All links of some lists. */
  ghost function Members(lists: seq<seq<ListEntry>>): (u: set<ListEntry>)
    ensures forall n, x :: 0 <= n < |lists| && x in lists[n] ==> x in u
    ensures forall x :: x in u ==> exists n :: 0 <= n < |lists| && x in lists[n]
  {
    set n, x | 0 <= n < |lists| && x in lists[n] :: x
  }

  ghost function Links(l: seq<ListEntry>): set<ListEntry> {
    set x | x in l
  }

  /** A link that is a ring of its own, if there is one. */
  ghost predicate Alone(l: seq<ListEntry>)
    reads Links(l)
  {
    l != [] ==> Ring(l)
  }

  // ---------- when the rings are in order ----------

  /** A header lies at its address, with its links at their offsets. */
  ghost predicate Mapped(memory: map<nat, ChunkHeader>) {
    && (forall a :: a in memory ==> memory[a].all.at == a && memory[a].free.at == a + HEADER)
    && (forall a, b :: a in memory && b in memory ==> memory[a].all != memory[b].free)
  }

  /** The ring of all chunks. */
  ghost predicate RingOk(ring: seq<ListEntry>, memory: map<nat, ChunkHeader>)
    reads Links(ring)
  {
    Ring(ring) && forall e :: e in ring ==> e.at > 0 && e.at in memory && memory[e.at].all == e
  }

  ghost predicate IsFreeLink(x: ListEntry, memory: map<nat, ChunkHeader>) {
    x.at > HEADER && Owner(x) in memory && memory[Owner(x)].free == x
  }

  /** A list is a ring that is known by the chunk of its first link, or null. */
  ghost predicate ListOk(l: seq<ListEntry>, head: nat, memory: map<nat, ChunkHeader>)
    reads Links(l)
  {
    && (if l == [] then head == 0 else Ring(l) && head == Owner(l[0]))
    && forall x :: x in l ==> IsFreeLink(x, memory)
  }

  ghost predicate ListsOk(lists: seq<seq<ListEntry>>, heads: seq<nat>, memory: map<nat, ChunkHeader>)
    reads Members(lists)
  {
    && |lists| == |heads| == SLOTS
    && forall n :: 0 <= n < SLOTS ==> ListOk(lists[n], heads[n], memory)
  }

  /** No link is in two rings. */
  ghost predicate Separate(ring: seq<ListEntry>, lists: seq<seq<ListEntry>>) {
    && (forall n :: 0 <= n < |lists| ==> Apart(lists[n], ring))
    && (forall n, m :: 0 <= n < |lists| && 0 <= m < |lists| && n != m ==> Apart(lists[n], lists[m]))
  }

  class Heap {
    var memory: map<nat, ChunkHeader>
    var freeChunks: seq<nat>
    ghost var ring: seq<ListEntry>
    ghost var lists: seq<seq<ListEntry>>

    /** Chunks that are linked already, and no list. */
    constructor (memory: map<nat, ChunkHeader>, ghost ring: seq<ListEntry>)
      ensures this.memory == memory && this.ring == ring
      ensures |freeChunks| == |lists| == SLOTS && forall n :: 0 <= n < SLOTS ==> freeChunks[n] == 0 && lists[n] == []
    {
      this.memory := memory;
      this.ring := ring;
      freeChunks := seq(SLOTS, _ => 0);
      lists := seq(SLOTS, _ => []);
    }

    ghost function InUse(): set<nat>
      reads this, memory.Values
    {
      set a | a in memory && memory[a].used
    }

    /** The heap as a value. */
    ghost function Now(): State
      reads this, memory.Values
    {
      State(Cells(ring, InUse()), Buckets(lists))
    }

    ghost predicate Woven()
      reads this, ring, Members(lists)
    {
      RingOk(ring, memory) && ListsOk(lists, freeChunks, memory) && Separate(ring, lists) && Mapped(memory)
    }

    /** The new head and links of list `n` are recorded; a link that is alone stays alone. */
    method Refile(n: nat, head: nat, ghost l: seq<ListEntry>, ghost alone: seq<ListEntry>)
      requires n < |lists| == |freeChunks| == SLOTS && RingOk(ring, memory) && Separate(ring, lists) && Mapped(memory)
      requires forall m :: 0 <= m < SLOTS && m != n ==> ListOk(lists[m], freeChunks[m], memory)
      requires ListOk(l, head, memory) && Alone(alone)
      requires forall y :: y in l ==> y in lists[n] || (y !in ring && y !in Members(lists))
      modifies this`freeChunks, this`lists
      ensures Woven() && lists == old(lists)[n := l] && freeChunks == old(freeChunks)[n := head]
      ensures Alone(alone)
    {
      hide Ring, ListOk, RingOk, Separate, Mapped, Alone;
      ghost var was, heads := lists, freeChunks;
      freeChunks := freeChunks[n := head];
      lists := lists[n := l];
      assert forall y :: y in Links(alone) ==> y as object != this;
      assert forall y :: y in Links(ring) ==> y as object != this;
      assert forall y :: y in Links(l) ==> y as object != this;
      forall m | 0 <= m < SLOTS && m != n ensures ListOk(was[m], heads[m], memory) {
        assert old(ListOk(was[m], heads[m], memory));
        assert forall y :: y in Links(was[m]) ==> y as object != this;
      }
      SeparateReplaced(ring, was, n, l);
      ListsReplaced(was, heads, memory, n, l, head);
    }

    /** Files a chunk at the head of list `n`. */
    method Push(c: nat, n: nat)
      requires Woven() && n < SLOTS && 0 < c && c in memory
      requires var x := memory[c].free; Ring([x]) && x !in ring && x !in Members(lists)
      modifies this`freeChunks, this`lists, memory[c].free, lists[n]
      ensures Woven()
      ensures lists == old(lists)[n := [memory[c].free] + old(lists)[n]]
    {
      hide Ring, ListOk, RingOk, Separate;
      var x := memory[c].free;
      ghost var l := lists[n];
      HeadOfList(l, freeChunks[n], memory);
      LinkIn(n, x);
      PushedOk(c, x, l, freeChunks[n], memory);
      Refile(n, c, [x] + l, []);
    }

    /** Links `x` in front of list `n`; the other rings do not notice. */
    method LinkIn(n: nat, x: ListEntry)
      requires Woven() && n < SLOTS && Ring([x]) && x !in ring && x !in Members(lists)
      modifies x, lists[n]
      ensures Ring([x] + lists[n]) && RingOk(ring, memory)
      ensures forall m :: 0 <= m < SLOTS && m != n ==> ListOk(lists[m], freeChunks[m], memory)
    {
      hide Ring, ListOk, RingOk, Separate;
      ghost var l := lists[n];
      NotElsewhere(ring, lists, n);
      HeadOfList(l, freeChunks[n], memory);
      assert forall y :: y in Links(ring) ==> y !in l && y != x;
      if freeChunks[n] != 0 {
        PushOn(memory[freeChunks[n]].free, x, l);
      } else {
        assert [x] + l == [x];
      }
      assert RingOk(ring, memory);
      forall m | 0 <= m < SLOTS && m != n ensures ListOk(lists[m], freeChunks[m], memory) {
        assert old(ListOk(lists[m], freeChunks[m], memory));
        assert forall y :: y in Links(lists[m]) ==> y !in l && y != x;
      }
    }

    /** Takes a link out of list `n`; the other rings do not notice. */
    method Unlink(n: nat, x: ListEntry, ghost k: nat)
      requires Woven() && n < SLOTS && k < |lists[n]| && lists[n][k] == x
      modifies lists[n]
      ensures Ring([x]) && (|lists[n]| > 1 ==> Ring(Without(lists[n], k)))
      ensures RingOk(ring, memory)
      ensures forall m :: 0 <= m < SLOTS && m != n ==> ListOk(lists[m], freeChunks[m], memory)
    {
      hide Ring, ListOk, RingOk, Separate;
      ghost var l := lists[n];
      NotElsewhere(ring, lists, n);
      HeadOfList(l, freeChunks[n], memory);
      NeighboursInList(l, k);
      assert forall y :: y in Links(ring) ==> y !in l;
      KernelLists.Remove(x, l, k);
      assert RingOk(ring, memory);
      forall m | 0 <= m < SLOTS && m != n ensures ListOk(lists[m], freeChunks[m], memory) {
        assert old(ListOk(lists[m], freeChunks[m], memory));
        assert forall y :: y in Links(lists[m]) ==> y !in l;
      }
    }

    /** Takes the first chunk from list `n`. */
    method Pop(n: nat) returns (c: nat)
      requires Woven() && n < SLOTS && freeChunks[n] != 0
      modifies this`freeChunks, this`lists, lists[n]
      ensures Woven() && old(lists)[n] != [] && c == old(freeChunks)[n] == Owner(old(lists)[n][0])
      ensures c in memory && memory[c].free == old(lists)[n][0] && Ring([memory[c].free])
      ensures lists == old(lists)[n := old(lists)[n][1..]]
    {
      hide Ring, ListOk, RingOk, Separate;
      ghost var l := lists[n];
      HeadOfList(l, freeChunks[n], memory);
      c := freeChunks[n];
      var d1 := memory[c].free;
      NextInList(l);
      var d2 := d1.flink;
      Unlink(n, d1, 0);
      var head := if d1 == d2 then 0 else Owner(d2);
      assert Without(l, 0) == l[1..];
      RestOk(l, head, memory);
      Refile(n, head, l[1..], [d1]);
    }

    /** Takes a chunk from list `n`, wherever it stands. */
    method RemoveFrom(n: nat, c: nat, ghost k: nat)
      requires Woven() && n < SLOTS && c in memory && k < |lists[n]| && lists[n][k] == memory[c].free
      modifies this`freeChunks, this`lists, lists[n]
      ensures Woven() && Ring([memory[c].free])
      ensures lists == old(lists)[n := Without(old(lists)[n], k)]
    {
      hide Ring, ListOk, RingOk, Separate;
      ghost var l := lists[n];
      HeadOfList(l, freeChunks[n], memory);
      FirstOrNot(l, k, c, memory);
      if freeChunks[n] == c {
        var _ := Pop(n);
        assert Without(l, 0) == l[1..];
      } else {
        Unlink(n, memory[c].free, k);
        RestBehindOk(l, k, freeChunks[n], memory);
        Refile(n, freeChunks[n], Without(l, k), [memory[c].free]);
      }
    }

    /** The new ring of all chunks is recorded, and the memory with a header more. */
    method Rering(now: map<nat, ChunkHeader>, ghost r: seq<ListEntry>, ghost alone: seq<ListEntry>)
      requires ListsOk(lists, freeChunks, now) && RingOk(r, now) && Separate(r, lists) && Mapped(now)
      requires Alone(alone)
      modifies this`memory, this`ring
      ensures Woven() && memory == now && ring == r
      ensures Alone(alone)
    {
      hide Ring, RingOk, ListsOk, Separate, Mapped, Alone;
      memory := now;
      ring := r;
      assert forall y :: y in Links(alone) ==> y as object != this;
      assert forall y :: y in Links(r) ==> y as object != this;
      assert forall y :: y in Members(lists) ==> y as object != this;
    }

    /** Makes a chunk at an address behind chunk `c`, and links it in there. */
    method InsertChunk(c: nat, at: nat, ghost i: nat)
      requires Woven() && c in memory && i < |ring| && ring[i] == memory[c].all && at > 0
      requires forall e :: e in ring ==> e.at != at
      requires forall x :: x in Members(lists) ==> Owner(x) != at
      modifies this`memory, this`ring, Links(ring)
      ensures Woven() && at in memory && memory == old(memory)[at := memory[at]]
      ensures fresh(memory[at]) && fresh(memory[at].all) && fresh(memory[at].free)
      ensures ring == Spliced(old(ring), i, memory[at].all)
      ensures !memory[at].used && Ring([memory[at].free])
      ensures memory[at].free !in ring && memory[at].free !in Members(lists)
    {
      hide Ring, RingOk, ListsOk, Separate, Mapped, Spliced;
      ghost var r := ring;
      RingIsRing(r, memory);
      NotInRing(r, lists);
      var h := new ChunkHeader(at);
      assert ListsOk(lists, freeChunks, memory);
      MappedMore(memory, at, h);
      LinkChunk(memory[c].all, h.all, h.free, i);
      ListsRemapped(lists, freeChunks, memory, at, h);
      RingRemapped(r, i, memory, at, h);
      SeparateGrown(r, i, h.all, lists);
      Rering(memory[at := h], Spliced(r, i, h.all), [h.free]);
      SplicedLinks(r, i, h.all);
    }

    /** Links `e` in behind link `i` of the ring; the lists and a link that is alone do not notice. */
    method LinkChunk(d: ListEntry, e: ListEntry, ghost alone: ListEntry, ghost i: nat)
      requires Ring(ring) && i < |ring| && ring[i] == d && Ring([e]) && Ring([alone])
      requires ListsOk(lists, freeChunks, memory)
      requires e !in ring && e !in Members(lists) && alone !in ring && alone != e
      requires forall y :: y in Members(lists) ==> y !in ring
      modifies e, Links(ring)
      ensures Ring(Spliced(ring, i, e)) && Ring([alone]) && ListsOk(lists, freeChunks, memory)
    {
      hide Ring, ListsOk, Spliced;
      ghost var r := ring;
      assert forall y :: y in Members(lists) ==> y !in r && y != e;
      SpliceBehind(d, e, r, i);
    }

    /** Takes chunk `i` out of the ring; a link that is alone does not notice. */
    method RemoveChunk(c: nat, ghost i: nat, ghost alone: seq<ListEntry>)
      requires Woven() && c in memory && i < |ring| && |ring| > 1 && ring[i] == memory[c].all
      requires Alone(alone) && Apart(alone, ring)
      modifies this`memory, this`ring, Links(ring)
      ensures Woven() && memory == old(memory) && ring == Without(old(ring), i)
      ensures Alone(alone)
    {
      hide Ring, RingOk, ListsOk, Separate, Mapped, Alone;
      ghost var r := ring;
      RingIsRing(r, memory);
      NotInRing(r, lists);
      NeighboursInList(r, i);
      assert forall y :: y in Members(lists) ==> y !in r;
      assert forall y :: y in Links(alone) ==> y !in r;
      KernelLists.Remove(memory[c].all, r, i);
      assert ListsOk(lists, freeChunks, memory);
      RingShrunk(r, i, memory);
      SeparateShrunk(r, i, lists);
      Rering(memory, Without(r, i), alone);
    }
  }

  method SpliceBehind(d1: ListEntry, d2: ListEntry, ghost r: seq<ListEntry>, ghost i: nat)
    requires Ring(r) && i < |r| && r[i] == d1 && Ring([d2]) && d2 !in r
    modifies d2, Links(r)
    ensures Ring(Spliced(r, i, d2))
  {
    hide Ring;
    ghost var a := r[i + 1..] + r[..i];
    assert r == r[..i] + r[i..];
    Rotate(r[..i], r[i..]);
    assert r[i..] + r[..i] == [d1] + a;
    assert [d2] + [] == [d2];
    NeighboursInList([d1] + a, 0);
    assert forall y :: y in [d1] + a ==> y in r;
    LoopsBack(d2);
    InsertAfter(d1, d2, a, []);
    assert [d1] + ([d2] + []) + a == ([d1, d2] + r[i + 1..]) + r[..i];
    Rotate([d1, d2] + r[i + 1..], r[..i]);
    assert r[..i] + ([d1, d2] + r[i + 1..]) == Spliced(r, i, d2);
  }

  lemma SplicedLinks(r: seq<ListEntry>, i: nat, e: ListEntry)
    requires i < |r|
    ensures forall y :: y in Spliced(r, i, e) ==> y in r || y == e
  {
  }

  lemma LoopsBack(d: ListEntry)
    requires Ring([d])
    ensures d.flink == d && d.blink == d
  {
  }

  lemma RingIsRing(r: seq<ListEntry>, memory: map<nat, ChunkHeader>)
    requires RingOk(r, memory)
    ensures Ring(r) && forall e :: e in r ==> e.at > 0 && e.at in memory && memory[e.at].all == e
  {
  }

  lemma NotInRing(ring: seq<ListEntry>, lists: seq<seq<ListEntry>>)
    requires Separate(ring, lists)
    ensures forall y :: y in Members(lists) ==> y !in ring
  {
    forall y | y in Members(lists) ensures y !in ring {
      var n :| 0 <= n < |lists| && y in lists[n];
      assert Apart(lists[n], ring);
    }
  }

  /** The lists do not depend on a header that none of their links is part of. */
  lemma ListsRemapped(lists: seq<seq<ListEntry>>, heads: seq<nat>, memory: map<nat, ChunkHeader>,
                      at: nat, h: ChunkHeader)
    requires ListsOk(lists, heads, memory) && forall x :: x in Members(lists) ==> Owner(x) != at
    ensures ListsOk(lists, heads, memory[at := h])
  {
    hide Ring;
    forall n | 0 <= n < SLOTS ensures ListOk(lists[n], heads[n], memory[at := h]) {
      assert ListOk(lists[n], heads[n], memory);
    }
  }

  lemma RingRemapped(r: seq<ListEntry>, i: nat, memory: map<nat, ChunkHeader>, at: nat, h: ChunkHeader)
    requires i < |r| && Ring(Spliced(r, i, h.all)) && h.all.at == at > 0
    requires forall e :: e in r ==> e.at > 0 && e.at != at && e.at in memory && memory[e.at].all == e
    ensures RingOk(Spliced(r, i, h.all), memory[at := h])
  {
    hide Ring;
  }

  lemma RingShrunk(r: seq<ListEntry>, i: nat, memory: map<nat, ChunkHeader>)
    requires i < |r| && Ring(Without(r, i))
    requires forall e :: e in r ==> e.at > 0 && e.at in memory && memory[e.at].all == e
    ensures RingOk(Without(r, i), memory)
  {
    hide Ring;
  }

  lemma SeparateShrunk(r: seq<ListEntry>, i: nat, lists: seq<seq<ListEntry>>)
    requires Separate(r, lists) && i < |r|
    ensures Separate(Without(r, i), lists)
  {
    forall n | 0 <= n < |lists| ensures Apart(lists[n], Without(r, i)) {
      assert Apart(lists[n], r);
    }
  }

  lemma SeparateGrown(r: seq<ListEntry>, i: nat, e: ListEntry, lists: seq<seq<ListEntry>>)
    requires Separate(r, lists) && i < |r| && e !in Members(lists)
    ensures Separate(Spliced(r, i, e), lists)
  {
    forall n | 0 <= n < |lists| ensures Apart(lists[n], Spliced(r, i, e)) {
      assert Apart(lists[n], r);
    }
  }

  lemma MappedMore(memory: map<nat, ChunkHeader>, at: nat, h: ChunkHeader)
    requires Mapped(memory) && h.all.at == at && h.free.at == at + HEADER && h.all != h.free
    requires forall a :: a in memory ==> memory[a].all != h.free && memory[a].free != h.all
    ensures Mapped(memory[at := h])
  {
  }

  /** A link put in behind link `i`. */
  ghost function Spliced(ring: seq<ListEntry>, i: nat, e: ListEntry): seq<ListEntry>
    requires i < |ring|
  {
    ring[..i + 1] + [e] + ring[i + 1..]
  }

  /** The links of a list are in no other ring. */
  lemma NotElsewhere(ring: seq<ListEntry>, lists: seq<seq<ListEntry>>, n: nat)
    requires Separate(ring, lists) && n < |lists|
    ensures forall y :: y in ring ==> y !in lists[n]
    ensures forall m, y :: 0 <= m < |lists| && m != n && y in lists[m] ==> y !in lists[n]
  {
    assert Apart(lists[n], ring);
    forall m, y | 0 <= m < |lists| && m != n && y in lists[m] ensures y !in lists[n] {
      assert Apart(lists[m], lists[n]);
    }
  }

  lemma HeadOfList(l: seq<ListEntry>, head: nat, memory: map<nat, ChunkHeader>)
    requires ListOk(l, head, memory)
    ensures head == 0 <==> l == []
    ensures l != [] ==> Ring(l) && head in memory && memory[head].free == l[0] && head == Owner(l[0])
    ensures forall x :: x in l ==> IsFreeLink(x, memory)
  {
    if l != [] {
      assert l[0] in l;
    }
  }

  /** The neighbours of a link are in its ring. */
  lemma NeighboursInList(l: seq<ListEntry>, k: nat)
    requires Ring(l) && k < |l|
    ensures l[k].flink in l && l[k].blink in l
  {
    EntryLast(l, k);
    var rest := l[k + 1..] + l[..k];
    Around(rest, l[k]);
    if rest != [] {
      assert rest[0] in l && rest[|rest| - 1] in l;
    }
  }

  lemma NextInList(l: seq<ListEntry>)
    requires Ring(l)
    ensures l[0].flink == if |l| == 1 then l[0] else l[1]
    ensures |l| > 1 ==> l[0] != l[1]
  {
    assert |l| > 1 ==> Linked(l[0], l[1]);
  }

  /** A chunk is the head of its list exactly when its link is the first. */
  lemma FirstOrNot(l: seq<ListEntry>, k: nat, c: nat, memory: map<nat, ChunkHeader>)
    requires Ring(l) && k < |l| && c in memory && l[k] == memory[c].free && Mapped(memory)
    requires forall x :: x in l ==> IsFreeLink(x, memory)
    ensures Owner(l[0]) == c <==> k == 0
  {
    assert l[0] in l && l[k] in l;
  }

  lemma RestOk(l: seq<ListEntry>, head: nat, memory: map<nat, ChunkHeader>)
    requires l != [] && (|l| > 1 ==> Ring(l[1..]))
    requires head == if |l| == 1 then 0 else Owner(l[1])
    requires forall x :: x in l ==> IsFreeLink(x, memory)
    ensures ListOk(l[1..], head, memory)
  {
    hide Ring;
  }

  lemma RestBehindOk(l: seq<ListEntry>, k: nat, head: nat, memory: map<nat, ChunkHeader>)
    requires 0 < k < |l| && Ring(Without(l, k)) && head == Owner(l[0])
    requires forall x :: x in l ==> IsFreeLink(x, memory)
    ensures ListOk(Without(l, k), head, memory)
  {
    hide Ring;
  }

  lemma PushedOk(c: nat, x: ListEntry, l: seq<ListEntry>, head: nat, memory: map<nat, ChunkHeader>)
    requires Ring([x] + l) && c > 0 && c in memory && memory[c].free == x && x.at == c + HEADER
    requires forall y :: y in l ==> IsFreeLink(y, memory)
    ensures ListOk([x] + l, c, memory)
  {
    hide Ring;
  }

  lemma SeparateReplaced(ring: seq<ListEntry>, lists: seq<seq<ListEntry>>, n: nat, l: seq<ListEntry>)
    requires Separate(ring, lists) && n < |lists|
    requires forall y :: y in l ==> y in lists[n] || (y !in ring && y !in Members(lists))
    ensures Separate(ring, lists[n := l])
  {
    var lists' := lists[n := l];
    forall m | 0 <= m < |lists| ensures Apart(lists'[m], ring) {
      assert Apart(lists[m], ring);
    }
    forall k, m | 0 <= k < |lists| && 0 <= m < |lists| && k != m ensures Apart(lists'[k], lists'[m]) {
      assert Apart(lists[k], lists[m]);
    }
  }

  lemma ListsReplaced(lists: seq<seq<ListEntry>>, heads: seq<nat>, memory: map<nat, ChunkHeader>,
                      n: nat, l: seq<ListEntry>, head: nat)
    requires n < |lists| == |heads| == SLOTS
    requires forall m :: 0 <= m < SLOTS && m != n ==> ListOk(lists[m], heads[m], memory)
    requires ListOk(l, head, memory)
    ensures ListsOk(lists[n := l], heads[n := head], memory)
  {
    hide ListOk;
  }

  /** A link in front of a ring. */
  method PushOn(h: ListEntry, x: ListEntry, ghost l: seq<ListEntry>)
    requires Ring(l) && l[0] == h && Ring([x]) && x !in l
    modifies x, l
    ensures Ring([x] + l)
  {
    HeadTail(l);
    assert [x] + [] == [x];
    assert l[|l| - 1] in l;
    InsertBefore(h, x, l[1..], []);
    assert [h] + l[1..] + ([x] + []) == l + [x];
    Rotate(l, [x]);
  }
}
