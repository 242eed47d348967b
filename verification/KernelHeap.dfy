/**
  * Allocating and freeing as the kernel does it: chunks are taken from the rings in
  * memory and put back, and every call does to the heap as a value what the
  * specification says.
  */
module KernelHeap {
  import opened Machine
  import Bytes
  import opened Seqs
  import opened LinkList
  import opened HeapModel
  import opened HeapOps
  import HeapBytes
  import HeapResize
  import HeapRuns
  import opened KernelChunks

  // ---------- rings and values ----------

  lemma CellsSpliced(ring: seq<ListEntry>, i: nat, e: ListEntry, u: set<nat>, v: set<nat>)
    requires i < |ring| && forall x :: x in ring ==> (x.at in u <==> x.at in v)
    ensures Cells(Spliced(ring, i, e), v) == Inserted(Cells(ring, u), i, Chunk(e.at, e.at in v))
  {
    assert forall k :: 0 <= k < |ring| ==> ring[k] in ring;
  }

  lemma CellsWithout(ring: seq<ListEntry>, i: nat, u: set<nat>)
    requires i < |ring|
    ensures Cells(Without(ring, i), u) == Without(Cells(ring, u), i)
  {
  }

  lemma CellsMarked(ring: seq<ListEntry>, i: nat, u: set<nat>, v: set<nat>)
    requires i < |ring| && forall k :: 0 <= k < |ring| && k != i ==> (ring[k].at in u <==> ring[k].at in v)
    ensures Cells(ring, v) == Marked(Cells(ring, u), i, ring[i].at in v)
  {
  }

  lemma BucketsAt(lists: seq<seq<ListEntry>>, n: nat, l: seq<ListEntry>)
    requires n < |lists|
    ensures Buckets(lists[n := l]) == Buckets(lists)[n := Places(l)]
  {
  }

  lemma PlacesPushed(x: ListEntry, l: seq<ListEntry>)
    ensures Places([x] + l) == [Owner(x)] + Places(l)
  {
  }

  lemma PlacesTail(l: seq<ListEntry>)
    requires l != []
    ensures Places(l[1..]) == Places(l)[1..]
  {
  }

  /** Taking out a link is taking out its chunk, when the links before it are of other chunks. */
  lemma {:induction false} PlacesWithout(l: seq<ListEntry>, k: nat)
    requires k < |l| && forall j :: 0 <= j < k ==> Owner(l[j]) != Owner(l[k])
    ensures Places(Without(l, k)) == RemoveFirst(Places(l), Owner(l[k]))
  {
    PlacesTail(l);
    if k == 0 {
      assert Without(l, 0) == l[1..];
    } else {
      PlacesWithout(l[1..], k - 1);
      assert Without(l, k) == [l[0]] + Without(l[1..], k - 1);
      PlacesPushed(l[0], Without(l[1..], k - 1));
    }
  }

  // ---------- sizes ----------

  /** The size class, by halving. */
  method ChunkSlot(size: nat) returns (n: int)
    ensures n == Slot(size)
  {
    n := -1;
    var rest := size;
    while rest > 0
      invariant n + 1 + Slot(rest) == Slot(size)
    {
      n := n + 1;
      rest := rest / 2;
    }
  }

  /** A multiple of four bytes, and at least the smallest block. */
  method RoundUp(size: nat) returns (r: nat)
    requires size < TWO64
    ensures r == Rounded(size)
  {
    r := (size + 3) % TWO64 / 4 * 4;
    if r < MIN_SIZE {
      r := MIN_SIZE;
    }
  }

  /** Link `i` of the ring of all chunks. */
  lemma LinkAt(h: Heap, i: nat)
    requires h.Woven() && i < |h.ring|
    ensures var c := h.ring[i].at; c > 0 && c in h.memory && h.memory[c].all == h.ring[i]
    ensures i + 1 < |h.ring| ==> h.ring[i].flink == h.ring[i + 1]
    ensures i > 0 ==> h.ring[i].blink == h.ring[i - 1]
    ensures forall k :: 0 <= k < |h.ring| && k != i ==> h.ring[k].at != h.ring[i].at
  {
    assert h.ring[i] in h.ring;
    assert i + 1 < |h.ring| ==> Linked(h.ring[i], h.ring[i + 1]);
    assert i > 0 ==> Linked(h.ring[i - 1], h.ring[i]);
    forall k | 0 <= k < |h.ring| && k != i ensures h.ring[k].at != h.ring[i].at {
      assert h.ring[k] in h.ring;
    }
  }

  /** The distance to the next chunk, without the header. */
  method ChunkSize(h: Heap, c: nat, ghost i: nat) returns (size: int)
    requires h.Woven() && i + 1 < |h.ring| && h.ring[i].at == c
    ensures size == SizeAt(h.Now().chunks, i)
  {
    LinkAt(h, i);
    var link := h.memory[c].all;
    size := link.flink.at - link.at - HEADER;
  }

  // ---------- single steps, on rings and on the value ----------

  /** The flag of chunk `i`. */
  method Mark(h: Heap, c: nat, used: bool, ghost i: nat)
    requires h.Woven() && i < |h.ring| && h.ring[i].at == c && c in h.memory
    modifies h.memory[c]
    ensures h.Woven() && h.Now() == State(Marked(old(h.Now()).chunks, i, used), old(h.Now()).buckets)
  {
    LinkAt(h, i);
    ghost var u := h.InUse();
    h.memory[c].used := used;
    OtherHeaders(h.memory, c);
    CellsMarked(h.ring, i, u, h.InUse());
    assert h.Woven();
  }

  lemma OtherHeaders(memory: map<nat, ChunkHeader>, c: nat)
    requires Mapped(memory) && c in memory
    ensures forall a :: a in memory && a != c ==> memory[a] != memory[c]
  {
  }

  /** The first chunk of list `n`. */
  method TakeHead(h: Heap, n: nat) returns (c: nat)
    requires h.Woven() && n < SLOTS && h.freeChunks[n] != 0
    modifies h, h.lists[n]
    ensures h.Woven() && h.memory == old(h.memory) && h.ring == old(h.ring)
    ensures |old(h.lists)| == SLOTS && old(h.lists)[n] != [] && h.lists == old(h.lists)[n := old(h.lists)[n][1..]]
    ensures var s := old(h.Now());
            && s.buckets[n] != [] && c == s.buckets[n][0]
            && h.Now() == State(s.chunks, s.buckets[n := s.buckets[n][1..]])
    ensures c in h.memory && Ring([h.memory[c].free])
  {
    hide Ring, RingOk, ListOk, Separate, Mapped;
    ghost var was := h.lists;
    ghost var u := h.InUse();
    c := h.Pop(n);
    assert h.InUse() == u;
    BucketsAt(was, n, was[n][1..]);
    PlacesTail(was[n]);
  }

  /** Chunk `c` is put at the head of list `n`. */
  method PutHead(h: Heap, c: nat, n: nat)
    requires h.Woven() && n < SLOTS && 0 < c && c in h.memory
    requires var x := h.memory[c].free; Ring([x]) && x !in h.ring && x !in Members(h.lists)
    modifies h, h.memory[c].free, h.lists[n]
    ensures h.Woven() && h.memory == old(h.memory) && h.ring == old(h.ring)
    ensures h.lists == old(h.lists)[n := [h.memory[c].free] + old(h.lists)[n]]
    ensures h.Now() == State(old(h.Now()).chunks, Pushed(old(h.Now()).buckets, n, c))
  {
    hide Ring, RingOk, ListOk, Separate;
    ghost var was := h.lists;
    ghost var u := h.InUse();
    var x := h.memory[c].free;
    h.Push(c, n);
    assert h.InUse() == u;
    BucketsAt(was, n, [x] + was[n]);
    PlacesPushed(x, was[n]);
  }

  /** Chunk `c`, link `k` of list `n`, is taken out of it. */
  method TakeOut(h: Heap, c: nat, n: nat, ghost k: nat)
    requires h.Woven() && n < SLOTS && c in h.memory && k < |h.lists[n]| && h.lists[n][k] == h.memory[c].free
    modifies h, h.lists[n]
    ensures h.Woven() && h.memory == old(h.memory) && h.ring == old(h.ring) && Ring([h.memory[c].free])
    ensures h.lists == old(h.lists)[n := Without(old(h.lists)[n], k)]
    ensures h.Now() == State(old(h.Now()).chunks, Unfiled(old(h.Now()).buckets, n, c))
  {
    hide Ring, RingOk, Separate, ListOk;
    ghost var was := h.lists;
    ghost var u := h.InUse();
    OwnersDiffer(was[n], h.freeChunks[n], h.memory);
    OwnerOf(h.memory, c);
    h.RemoveFrom(n, c, k);
    assert h.InUse() == u;
    BucketsAt(was, n, Without(was[n], k));
    PlacesWithout(was[n], k);
  }

  lemma OwnersDiffer(l: seq<ListEntry>, head: nat, memory: map<nat, ChunkHeader>)
    requires ListOk(l, head, memory)
    ensures forall i, j :: 0 <= i < j < |l| ==> Owner(l[i]) != Owner(l[j])
  {
    forall i, j | 0 <= i < j < |l| ensures Owner(l[i]) != Owner(l[j]) {
      assert l[i] in l && l[j] in l;
    }
  }

  lemma OwnerOf(memory: map<nat, ChunkHeader>, c: nat)
    requires Mapped(memory) && c in memory
    ensures Owner(memory[c].free) == c
  {
  }

  /** A chunk that is not in use is linked in behind chunk `i`. */
  method Insert(h: Heap, c: nat, at: nat, ghost i: nat)
    requires h.Woven() && c in h.memory && i < |h.ring| && h.ring[i].at == c && at > 0
    requires forall e :: e in h.ring ==> e.at != at
    requires forall x :: x in Members(h.lists) ==> Owner(x) != at
    modifies h, Links(h.ring)
    ensures h.Woven() && h.lists == old(h.lists) && h.freeChunks == old(h.freeChunks)
    ensures at in h.memory && h.memory == old(h.memory)[at := h.memory[at]]
    ensures fresh(h.memory[at]) && fresh(h.memory[at].all) && fresh(h.memory[at].free)
    ensures h.ring == Spliced(old(h.ring), i, h.memory[at].all) && h.memory[at].all.at == at
    ensures Ring([h.memory[at].free]) && h.memory[at].free !in h.ring && h.memory[at].free !in Members(h.lists)
    ensures h.Now() == State(Inserted(old(h.Now()).chunks, i, Chunk(at, false)), old(h.Now()).buckets)
  {
    hide Ring, RingOk, ListsOk, Separate;
    ghost var r, u := h.ring, h.InUse();
    LinkAt(h, i);
    h.InsertChunk(c, at, i);
    CellsSpliced(r, i, h.memory[at].all, u, h.InUse());
  }

  /** Chunk `i` is taken out of the ring of all chunks. */
  method Remove(h: Heap, c: nat, ghost i: nat, ghost alone: seq<ListEntry>)
    requires Alone(alone) && KernelLists.Apart(alone, h.ring)
    requires h.Woven() && c in h.memory && i < |h.ring| && |h.ring| > 1 && h.ring[i].at == c
    modifies h, Links(h.ring)
    ensures h.Woven() && h.lists == old(h.lists) && h.freeChunks == old(h.freeChunks) && h.memory == old(h.memory)
    ensures h.ring == Without(old(h.ring), i)
    ensures h.Now() == State(Without(old(h.Now()).chunks, i), old(h.Now()).buckets)
    ensures Alone(alone)
  {
    hide Alone, Ring, RingOk, ListsOk, Separate, Mapped;
    ghost var r, u := h.ring, h.InUse();
    LinkAt(h, i);
    h.RemoveChunk(c, i, alone);
    assert h.InUse() == u;
    CellsWithout(r, i, u);
  }

  /** The free link of a chunk in use holds the user's data; it becomes a link again. */
  method InitFree(h: Heap, c: nat)
    requires h.Woven() && c in h.memory && h.memory[c].free !in h.ring && h.memory[c].free !in Members(h.lists)
    modifies h.memory[c].free
    ensures h.Woven() && Ring([h.memory[c].free]) && h.Now() == old(h.Now())
  {
    hide Ring, RingOk, ListsOk, Separate, Mapped;
    var x := h.memory[c].free;
    assert forall y :: y in Links(h.ring) ==> y != x;
    assert forall y :: y in Members(h.lists) ==> y != x;
    KernelLists.Init(x);
  }

  // ---------- the heap between two calls ----------

  /** All rings are in order, and the value they stand for is a valid heap. */
  ghost predicate Ready(h: Heap)
    reads h, h.ring, Members(h.lists), h.memory.Values
  {
    h.Woven() && Valid(h.Now())
  }

  /** A link in a list is that of a free chunk of that size class. */
  lemma FiledChunk(h: Heap, n: nat, x: ListEntry) returns (i: nat)
    requires h.Woven() && Valid(h.Now()) && n < SLOTS && x in h.lists[n]
    ensures i + 1 < |h.ring| && h.ring[i].at == Owner(x) && !h.Now().chunks[i].used
  {
    hide Ring, RingOk, ListOk, Separate, Mapped, Blocks, FreeBag, Coalesced, AllOk;
    var s := h.Now();
    var k :| 0 <= k < |h.lists[n]| && h.lists[n][k] == x;
    assert s.buckets[n][k] == Owner(x) && Owner(x) in multiset(s.buckets[n]);
    i := FindFree(Blocks(s.chunks), n, Owner(x));
    BlockAt(s.chunks, i);
  }

  /** A free chunk has its link in the list of its size class. */
  lemma FreeLink(h: Heap, i: nat) returns (n: nat, k: nat)
    requires h.Woven() && Valid(h.Now()) && i + 1 < |h.ring| && !h.Now().chunks[i].used
    ensures n < SLOTS && n == SlotAt(h.Now().chunks, i) && SizeAt(h.Now().chunks, i) >= 0
    ensures k < |h.lists[n]| && h.ring[i].at in h.memory && h.lists[n][k] == h.memory[h.ring[i].at].free
  {
    hide Ring, ListOk, Separate, Blocks, FreeBag, Coalesced, Slot;
    var s := h.Now();
    LinkAt(h, i);
    var c := h.ring[i].at;
    SizeInRange(s.chunks, i);
    FreeInBag(Blocks(s.chunks), i);
    n := Slot(SizeAt(s.chunks, i));
    assert c in multiset(s.buckets[n]);
    k :| 0 <= k < |s.buckets[n]| && s.buckets[n][k] == c;
    HeadOfList(h.lists[n], h.freeChunks[n], h.memory);
    assert h.lists[n][k] in h.lists[n];
  }

  /** The free link of a chunk in use is in no ring. */
  lemma UsedUnfiled(h: Heap, i: nat)
    requires h.Woven() && Valid(h.Now()) && i + 1 < |h.ring| && h.Now().chunks[i].used
    ensures h.ring[i].at in h.memory
    ensures var x := h.memory[h.ring[i].at].free; x !in h.ring && x !in Members(h.lists)
  {
    hide Valid, Ring, ListOk, Separate;
    LinkAt(h, i);
    var c := h.ring[i].at;
    var x := h.memory[c].free;
    if x in h.ring {
      assert false;
    }
    if x in Members(h.lists) {
      var n :| 0 <= n < |h.lists| && x in h.lists[n];
      var j := FiledChunk(h, n, x);
      LinkAt(h, j);
      assert false;
    }
  }

  // ---------- allocating ----------

  /** The first list from `n` on that is not empty. */
  method FindBucket(h: Heap, n: nat) returns (k: nat)
    requires h.Woven() && n < SLOTS
    ensures k == FirstFilled(h.Now().buckets, n)
    ensures k < SLOTS ==> h.freeChunks[k] != 0
  {
    hide Ring, RingOk, ListOk, Separate, Mapped;
    k := n;
    Headed(h, k);
    while h.freeChunks[k] == 0
      invariant n <= k < SLOTS && h.Woven()
      invariant h.freeChunks[k] == 0 <==> h.Now().buckets[k] == []
      invariant FirstFilled(h.Now().buckets, k) == FirstFilled(h.Now().buckets, n)
      decreases SLOTS - k
    {
      k := k + 1;
      if k >= SLOTS {
        return;
      }
      Headed(h, k);
    }
  }

  lemma Headed(h: Heap, n: nat)
    requires h.Woven() && n < SLOTS
    ensures h.freeChunks[n] == 0 <==> h.Now().buckets[n] == []
  {
    hide Ring;
    HeadOfList(h.lists[n], h.freeChunks[n], h.memory);
  }

  /** An address inside a free chunk is that of no chunk. */
  lemma Inside(cs: seq<Chunk>, i: nat, at: nat, k: nat)
    requires AllOk(Blocks(cs)) && i + 1 < |cs| && k < |cs| && cs[i].at < at < cs[i + 1].at
    ensures cs[k].at != at
  {
    hide Blocks, AllOk;
    if k < i {
      Ordered(cs, k, i);
    } else if k > i + 1 {
      Ordered(cs, i + 1, k);
    }
  }

  /** Lists hold links of chunks only. */
  ghost predicate Owned(h: Heap)
    reads h
  {
    forall x :: x in Members(h.lists) ==> exists j :: 0 <= j < |h.ring| && h.ring[j].at == Owner(x)
  }

  lemma ReadyOwned(h: Heap)
    requires Ready(h)
    ensures Owned(h)
  {
    hide Ring, RingOk, ListOk, Separate, Mapped, Valid;
    forall x | x in Members(h.lists) ensures exists j :: 0 <= j < |h.ring| && h.ring[j].at == Owner(x) {
      var n :| 0 <= n < |h.lists| && x in h.lists[n];
      var j := FiledChunk(h, n, x);
    }
  }

  /** What is not needed of chunk `i` becomes a free chunk. */
  method SplitOff(h: Heap, c: nat, at: nat, ghost i: nat)
    requires h.Woven() && Owned(h) && AllOk(Blocks(h.Now().chunks)) && i + 1 < |h.ring| && h.ring[i].at == c
    requires c < at && at + HEADER < h.ring[i + 1].at < at + HEADER + TWO32
    modifies h, Links(h.ring), Members(h.lists)
    ensures h.Woven() && at in h.memory && h.memory == old(h.memory)[at := h.memory[at]]
    ensures fresh(h.memory[at]) && fresh(h.memory[at].all) && fresh(h.memory[at].free)
    ensures h.ring == Spliced(old(h.ring), i, h.memory[at].all)
    ensures var s := old(h.Now());
            h.Now() == State(Inserted(s.chunks, i, Chunk(at, false)),
                             Pushed(s.buckets, Slot(s.chunks[i + 1].at - at - HEADER), at))
  {
    hide Ring, RingOk, ListOk, Separate, Slot, Blocks, AllOk, Mapped, Spliced, Inserted, Pushed;
    ghost var s, r := h.Now(), h.ring;
    LinkAt(h, i);
    NewAddress(h, i, at);
    Insert(h, c, at, i);
    SplicedAt(r, i, h.memory[at].all);
    InsertedAt(s.chunks, i, Chunk(at, false));
    var len := ChunkSize(h, at, i + 1);
    SlotInRange(len);
    var n := ChunkSlot(len);
    PutHead(h, at, n);
  }

  lemma NewAddress(h: Heap, i: nat, at: nat)
    requires Owned(h) && AllOk(Blocks(h.Now().chunks)) && i + 1 < |h.ring| && h.ring[i].at < at < h.ring[i + 1].at
    ensures forall e :: e in h.ring ==> e.at != at
    ensures forall x :: x in Members(h.lists) ==> Owner(x) != at
  {
    hide AllOk, Blocks;
    forall e | e in h.ring ensures e.at != at {
      var k :| 0 <= k < |h.ring| && h.ring[k] == e;
      Inside(h.Now().chunks, i, at, k);
    }
  }

  lemma InsertedAt(cs: seq<Chunk>, i: nat, c: Chunk)
    requires i + 1 < |cs|
    ensures Inserted(cs, i, c)[i + 1] == c && Inserted(cs, i, c)[i + 2] == cs[i + 1]
  {
  }

  lemma SplicedAt(r: seq<ListEntry>, i: nat, e: ListEntry)
    requires i + 1 < |r|
    ensures |Spliced(r, i, e)| == |r| + 1 && Spliced(r, i, e)[i + 1] == e && Spliced(r, i, e)[i + 2] == r[i + 1]
    ensures Spliced(r, i, e)[..i + 1] == r[..i + 1]
  {
  }

  /** Chunk `i` is put in use, and a rest that can hold a chunk is split off. */
  method Carve(h: Heap, c: nat, size: nat, ghost i: nat)
    requires h.Woven() && Owned(h) && AllOk(Blocks(h.Now().chunks)) && i + 1 < |h.ring| && h.ring[i].at == c
    requires SizeAt(h.Now().chunks, i) < TWO32 && c in h.memory
    modifies h, Links(h.ring), Members(h.lists), h.memory[c]
    ensures h.Woven() && h.Now() == Carved(old(h.Now()), i, size)
    ensures forall a :: a in h.memory ==>
      || (a in old(h.memory) && h.memory[a] == old(h.memory)[a])
      || (fresh(h.memory[a]) && fresh(h.memory[a].all) && fresh(h.memory[a].free))
  {
    hide Ring, RingOk, ListOk, Separate, Slot, Blocks, AllOk, Mapped, Spliced, Inserted, Pushed;
    ghost var s, r := h.Now(), h.ring;
    LinkAt(h, i);
    var size2 := ChunkSize(h, c, i);
    if size + CHUNK <= size2 {
      SplitOff(h, c, c + HEADER + size, i);
      SplicedAt(r, i, h.memory[c + HEADER + size].all);
      assert h.ring[..i + 1][i] == r[..i + 1][i];
    }
    Mark(h, c, true, i);
  }

  /**
    * Takes the first chunk of the first list that is sure to fit, and gives back what
    * is not needed of it: what happens in the rings is what the specification does.
    */
  method Malloc(h: Heap, size: nat) returns (p: nat)
    requires Ready(h) && size < TWO64
    modifies h, Links(h.ring), Members(h.lists), h.memory.Values
    ensures Ready(h) && h.Now() == Allocate(old(h.Now()), size).0
    ensures p == match Allocate(old(h.Now()), size).1 case None => 0 case Some(a) => a
    ensures p == 0 <==> Choice(old(h.Now()), size).None?
    ensures forall a :: a in h.memory ==>
      || (a in old(h.memory) && h.memory[a] == old(h.memory)[a])
      || (fresh(h.memory[a]) && fresh(h.memory[a].all) && fresh(h.memory[a].free))
  {
    hide Ring, RingOk, ListsOk, Separate, Mapped, Valid, Slot, Rounded, Allocate, Choice;
    assert forall y :: y in Links(h.ring) + Members(h.lists) ==> allocated(y);
    var rounded := RoundUp(size);
    var n := ChunkSlot(rounded - 1);
    assert h.Now() == old(h.Now());
    p := Search(h, size, rounded, n + 1);
  }

  /** The search for a chunk from list `n` on. */
  method Search(h: Heap, size: nat, rounded: nat, n: int) returns (p: nat)
    requires Ready(h) && size < TWO64 && rounded == Rounded(size) && n == FirstSlot(size)
    modifies h, Links(h.ring), Members(h.lists), h.memory.Values
    ensures Ready(h) && h.Now() == Allocate(old(h.Now()), size).0
    ensures p == match Allocate(old(h.Now()), size).1 case None => 0 case Some(a) => a
    ensures p == 0 <==> Choice(old(h.Now()), size).None?
    ensures forall a :: a in h.memory ==>
      || (a in old(h.memory) && h.memory[a] == old(h.memory)[a])
      || (fresh(h.memory[a]) && fresh(h.memory[a].all) && fresh(h.memory[a].free))
  {
    hide Ring, RingOk, ListOk, Separate, Mapped, Valid, Slot, FirstFilled, Rounded, Carved, Blocks, UsedBag;
    ghost var s := h.Now();
    AllocateKeeps(s, size);
    FirstSlotPositive(size);
    if n >= SLOTS {
      NothingThere(s, size, n);
      return 0;
    }
    var k := FindBucket(h, n);
    if k == SLOTS {
      return 0;
    }
    ghost var i := IndexOf(s.chunks, s.buckets[k][0]);
    var c := TakeFrom(h, k, rounded, i);
    p := c + HEADER;
  }

  /** A chunk is taken from list `k` and carved. */
  method TakeFrom(h: Heap, k: nat, size: nat, ghost i: nat) returns (c: nat)
    requires Ready(h) && k < SLOTS && h.freeChunks[k] != 0
    requires h.Now().buckets[k] != [] && i == IndexOf(h.Now().chunks, h.Now().buckets[k][0])
    modifies h, Links(h.ring), Members(h.lists), h.memory.Values
    ensures h.Woven() && i + 1 < |old(h.Now()).chunks|
    ensures var s := old(h.Now());
            && c == s.buckets[k][0] == s.chunks[i].at
            && h.Now() == Carved(State(s.chunks, s.buckets[k := s.buckets[k][1..]]), i, size)
    ensures forall a :: a in h.memory ==>
      || (a in old(h.memory) && h.memory[a] == old(h.memory)[a])
      || (fresh(h.memory[a]) && fresh(h.memory[a].all) && fresh(h.memory[a].free))
  {
    hide Ring, RingOk, ListOk, Separate, Mapped, Slot, Carved, Blocks, Coalesced, HeapModel.Filed, FreeBag;
    ghost var s, was := h.Now(), h.lists;
    ReadyOwned(h);
    HeadIsFree(s, k);
    SizeInRange(s.chunks, i);
    c := TakeHead(h, k);
    FewerMembers(was, k);
    Carve(h, c, size, i);
  }

  lemma FewerMembers(lists: seq<seq<ListEntry>>, n: nat)
    requires n < |lists| && lists[n] != []
    ensures Members(lists[n := lists[n][1..]]) <= Members(lists)
  {
    var lists' := lists[n := lists[n][1..]];
    forall x | x in Members(lists') ensures x in Members(lists) {
      var m :| 0 <= m < |lists'| && x in lists'[m];
      assert x in lists[m];
    }
  }

  lemma FirstSlotPositive(size: nat)
    ensures FirstSlot(size) >= 0
  {
    SlotBounds(Rounded(size) - 1);
  }

  lemma NothingThere(s: State, size: nat, n: int)
    requires |s.buckets| == SLOTS && n == FirstSlot(size) >= SLOTS
    ensures Allocate(s, size) == (s, None)
  {
    hide Slot;
  }

  // ---------- freeing ----------

  /** A free chunk is taken out of the list of its size class. */
  method RemoveFree(h: Heap, c: nat, ghost i: nat)
    requires Ready(h) && i + 1 < |h.ring| && h.ring[i].at == c && !h.Now().chunks[i].used
    modifies h, Members(h.lists)
    ensures h.Woven() && h.memory == old(h.memory) && h.ring == old(h.ring)
    ensures c in h.memory && Ring([h.memory[c].free]) && h.memory[c].free !in h.ring
    ensures h.memory[c].free !in Members(h.lists) && h.memory[c].free in old(Members(h.lists))
    ensures Members(h.lists) <= old(Members(h.lists))
    ensures var s := old(h.Now()); h.Now() == State(s.chunks, Unfiled(s.buckets, SlotAt(s.chunks, i), c))
  {
    hide Ring, RingOk, ListOk, Separate, Mapped, Valid, Slot, SlotAt, Unfiled;
    ghost var was := h.lists;
    ghost var m, k := FreeLink(h, i);
    LinkGone(h, m, k);
    var len := ChunkSize(h, c, i);
    var n := SizeClass(len, h.Now().chunks, i);
    TakeOut(h, c, n, k);
  }

  method SizeClass(len: int, ghost cs: seq<Chunk>, ghost i: nat) returns (n: int)
    requires i + 1 < |cs| && len == SizeAt(cs, i) >= 0
    ensures n == SlotAt(cs, i)
  {
    n := ChunkSlot(len);
  }

  /** A link that is taken out of its list is in no ring of the heap. */
  lemma LinkGone(h: Heap, n: nat, k: nat)
    requires h.Woven() && n < SLOTS && k < |h.lists[n]|
    ensures h.lists[n][k] !in h.ring
    ensures h.lists[n][k] !in Members(h.lists[n := Without(h.lists[n], k)]) && h.lists[n][k] in Members(h.lists)
    ensures Members(h.lists[n := Without(h.lists[n], k)]) <= Members(h.lists)
  {
    var x, lists' := h.lists[n][k], h.lists[n := Without(h.lists[n], k)];
    NotElsewhere(h.ring, h.lists, n);
    assert ListOk(h.lists[n], h.freeChunks[n], h.memory);
    if x in Members(lists') {
      assert false;
    }
    forall y | y in lists'[n] ensures y in h.lists[n] {
    }
    forall y | y in Members(lists') ensures y in Members(h.lists) {
      var m :| 0 <= m < |lists'| && y in lists'[m];
      assert y in h.lists[m];
    }
  }

  /** A chunk that is in no list is filed in that of its size class. */
  method PushFree(h: Heap, c: nat, ghost i: nat)
    requires h.Woven() && i + 1 < |h.ring| && h.ring[i].at == c && 0 < SizeAt(h.Now().chunks, i) < TWO32
    requires c in h.memory && Ring([h.memory[c].free])
    requires h.memory[c].free !in h.ring && h.memory[c].free !in Members(h.lists)
    modifies h, Members(h.lists), h.memory[c].free
    ensures h.Woven() && h.memory == old(h.memory) && h.ring == old(h.ring)
    ensures var s := old(h.Now()); h.Now() == State(s.chunks, Pushed(s.buckets, SlotAt(s.chunks, i), c))
  {
    hide Ring, RingOk, ListOk, Separate, Mapped, Slot, SlotAt, Pushed;
    LinkAt(h, i);
    var len := ChunkSize(h, c, i);
    SlotAtRange(h.Now().chunks, i);
    var n := SizeClass(len, h.Now().chunks, i);
    PutHead(h, c, n);
  }

  lemma SlotAtRange(cs: seq<Chunk>, i: nat)
    requires i + 1 < |cs| && 0 < SizeAt(cs, i) < TWO32
    ensures 0 <= SlotAt(cs, i) < SLOTS
  {
    hide Slot;
    SlotInRange(SizeAt(cs, i));
  }

  /** A free chunk behind chunk `i` becomes part of it. */
  method AbsorbBehind(h: Heap, c: nat, ghost i: nat)
    requires Ready(h) && 0 < i && i + 1 < |h.ring| && h.ring[i].at == c && h.Now().chunks[|h.ring| - 1].used
    modifies h, Links(h.ring), Members(h.lists)
    ensures h.Woven() && h.memory == old(h.memory) && i < |h.ring| && h.ring[i] == old(h.ring)[i]
    ensures Links(h.ring) <= old(Links(h.ring)) && Members(h.lists) <= old(Members(h.lists))
    ensures h.Now() == AbsorbNext(old(h.Now()), i)
  {
    hide Ring, RingOk, ListOk, Separate, Mapped, Valid, Slot, SlotAt, Unfiled;
    LinkAt(h, i);
    LinkAt(h, i + 1);
    var next := h.memory[c].all.flink.at;
    if !h.memory[next].used {
      RemoveFree(h, next, i + 1);
      WithoutLinks(h.ring, i + 1);
      Remove(h, next, i + 1, []);
    }
  }

  /** Chunk `i` becomes part of a free chunk in front of it, or a free chunk itself. */
  method FreeInFront(h: Heap, c: nat, ghost i: nat)
    requires Ready(h) && 0 < i && i + 1 < |h.ring| && h.ring[i].at == c && c in h.memory && h.Now().chunks[i].used
    modifies h, Links(h.ring), Members(h.lists), h.memory[c], h.memory[c].free
    ensures h.Woven() && h.memory == old(h.memory) && h.Now() == FreeInto(old(h.Now()), i)
  {
    hide Ring, RingOk, ListOk, Separate, Mapped, Valid, Slot, SlotAt, Unfiled, Pushed, Without, Marked;
    LinkAt(h, i);
    LinkAt(h, i - 1);
    var prev := h.memory[c].all.blink.at;
    if !h.memory[prev].used {
      JoinFront(h, c, prev, i);
    } else {
      FreeAlone(h, c, i);
    }
  }

  method JoinFront(h: Heap, c: nat, prev: nat, ghost i: nat)
    requires Ready(h) && 0 < i && i + 1 < |h.ring| && h.ring[i].at == c && h.ring[i - 1].at == prev
    requires !h.Now().chunks[i - 1].used
    modifies h, Links(h.ring), Members(h.lists)
    ensures h.Woven() && h.memory == old(h.memory) && h.Now() == FreeInto(old(h.Now()), i)
  {
    hide Ring, RingOk, ListOk, Separate, Mapped, Valid, Slot, SlotAt, Unfiled, Pushed, Without;
    ghost var s, r := h.Now(), h.ring;
    LinkAt(h, i);
    Joined(s, i);
    WithoutAt(r, i);
    RemoveFree(h, prev, i - 1);
    ghost var x := h.memory[prev].free;
    Remove(h, c, i, [x]);
    WithoutLinks(r, i);
    PushFree(h, prev, i - 1);
  }

  method FreeAlone(h: Heap, c: nat, ghost i: nat)
    requires Ready(h) && 0 < i && i + 1 < |h.ring| && h.ring[i].at == c && c in h.memory
    requires h.Now().chunks[i].used && h.Now().chunks[i - 1].used
    modifies h, Members(h.lists), h.memory[c], h.memory[c].free
    ensures h.Woven() && h.memory == old(h.memory) && h.Now() == FreeInto(old(h.Now()), i)
  {
    hide Ring, RingOk, ListOk, Separate, Mapped, Valid, Slot, SlotAt, Pushed, Marked;
    ghost var s := h.Now();
    Measured(s, i);
    UsedUnfiled(h, i);
    Mark(h, c, false, i);
    InitFree(h, c);
    PushFree(h, c, i);
  }

  lemma Measured(s: State, i: nat)
    requires Valid(s) && i + 1 < |s.chunks|
    ensures 0 < SizeAt(s.chunks, i) < TWO32
    ensures SlotAt(Marked(s.chunks, i, false), i) == SlotAt(s.chunks, i)
    ensures SizeAt(Marked(s.chunks, i, false), i) == SizeAt(s.chunks, i)
    ensures Marked(s.chunks, i, false)[i].at == s.chunks[i].at
  {
    hide Blocks, Coalesced, HeapModel.Filed, Slot;
    SizeInRange(s.chunks, i);
  }

  lemma WithoutAt(r: seq<ListEntry>, i: nat)
    requires 0 < i < |r|
    ensures |Without(r, i)| == |r| - 1 && Without(r, i)[i - 1] == r[i - 1]
  {
  }

  lemma WithoutLinks(r: seq<ListEntry>, i: nat)
    requires i < |r|
    ensures forall y :: y in Without(r, i) ==> y in r
  {
  }

  /** Without chunk `i` the one in front of it has a size, too. */
  lemma {:induction false} Joined(s: State, i: nat)
    requires Valid(s) && 0 < i < |s.chunks| - 1
    ensures i < |Without(s.chunks, i)| && 0 < SizeAt(Without(s.chunks, i), i - 1) < TWO32
    ensures Without(s.chunks, i)[i - 1] == s.chunks[i - 1]
  {
    hide Blocks, Coalesced, HeapModel.Filed;
    var cs := s.chunks;
    SizeInRange(cs, i - 1);
    SizeInRange(cs, i);
    if i - 1 > 0 {
      Ordered(cs, 0, i - 1);
    }
    if i + 1 < |cs| - 1 {
      Ordered(cs, i + 1, |cs| - 1);
    }
  }

  /** Frees a chunk and joins it with its free neighbours, in the rings as in the specification. */
  method Free(h: Heap, addr: nat)
    requires Ready(h) && HeapRuns.Legal(h.Now(), HeapRuns.Op.Free(addr))
    modifies h, Links(h.ring), Members(h.lists), h.memory.Values, FreeLinks(h)
    ensures Ready(h) && h.memory == old(h.memory)
    ensures h.Now() == HeapRuns.Do(old(h.Now()), HeapRuns.Op.Free(addr))
  {
    hide Ring, RingOk, ListsOk, Separate, Mapped, Valid, Release, UsedBag, Blocks;
    HeapRuns.DoKeeps(h.Now(), HeapRuns.Op.Free(addr));
    if addr != 0 {
      FreeChunk(h, addr - HEADER);
    }
  }

  method FreeChunk(h: Heap, c: nat)
    requires Ready(h) && HeapResize.Frees(h.Now(), c + HEADER)
    modifies h, Links(h.ring), Members(h.lists), h.memory.Values, FreeLinks(h)
    ensures h.Woven() && h.memory == old(h.memory)
    ensures h.Now() == HeapRuns.Do(old(h.Now()), HeapRuns.Op.Free(c + HEADER))
  {
    hide Ring, RingOk, ListsOk, Separate, Mapped, Valid, AbsorbNext, FreeInto, UsedBag, Blocks;
    ghost var s, r := h.Now(), h.ring;
    ghost var i := IndexOf(s.chunks, c);
    LinkAt(h, i);
    AbsorbKeeps(s, i);
    AbsorbBehind(h, c, i);
    ghost var mid := h.Now();
    assert mid.chunks[..i + 1][i] == s.chunks[..i + 1][i];
    assert forall y :: y in h.ring ==> y in Links(h.ring);
    assert forall y :: y in h.ring ==> y in r;
    assert h.memory[c] in old(h.memory.Values) && h.memory[c].free in old(FreeLinks(h));
    FreeInFront(h, c, i);
  }

  ghost function FreeLinks(h: Heap): set<ListEntry>
    reads h
  {
    set a | a in h.memory :: h.memory[a].free
  }

  // ---------- the start ----------

  function AlignedSize(start: nat, size: nat): int {
    HeapRuns.AlignDown(start + size) - HeapRuns.AlignUp(start)
  }

  lemma Aligned(start: nat, size: nat)
    ensures HeapRuns.AlignUp(start) % 4 == 0 && HeapRuns.AlignDown(start + size) % 4 == 0
    ensures HeapRuns.AlignUp(start) >= start && HeapRuns.AlignDown(start + size) <= start + size
    ensures (HeapRuns.AlignDown(start + size) - CHUNK) % 4 == 0
  {
  }

  /** Two sentinels and one free chunk in all the memory between them. */
  method HeapInit(start: nat, size: nat) returns (h: Heap)
    requires start > 0 && AlignedSize(start, size) >= 3 * CHUNK && size < TWO32
    ensures fresh(h) && Ready(h)
    ensures h.Now() == HeapRuns.Initial(HeapRuns.AlignUp(start), HeapRuns.AlignDown(start + size) - CHUNK)
  {
    hide Ring, RingOk, ListOk, Separate, Mapped, Valid, Slot, SlotAt, Pushed;
    var first, last := HeapRuns.AlignUp(start), HeapRuns.AlignDown(start + size) - CHUNK;
    Aligned(start, size);
    hide HeapRuns.AlignUp, HeapRuns.AlignDown;
    HeapRuns.InitialValid(first, last);
    StartsWithOne(first, last);
    h := LayOut(first, last);
    PushFree(h, first + CHUNK, 1);
  }

  lemma StartsWithOne(first: nat, last: nat)
    requires first + 2 * CHUNK <= last < first + TWO32
    ensures var cs := HeapRuns.InitialChunks(first, last);
            && 0 < SizeAt(cs, 1) < TWO32
            && HeapRuns.Initial(first, last) == State(cs, Pushed(HeapRuns.EmptyLists(), SlotAt(cs, 1), first + CHUNK))
  {
    hide Slot, Pushed;
  }

  /** The three chunks, linked in a ring and in no list. */
  method LayOut(first: nat, last: nat) returns (h: Heap)
    requires 0 < first && first + 2 * CHUNK <= last
    ensures fresh(h) && h.Woven() && |h.ring| == 3 && h.ring[1].at == first + CHUNK
    ensures first + CHUNK in h.memory && Ring([h.memory[first + CHUNK].free])
    ensures fresh(h.memory[first + CHUNK].free) && Members(h.lists) == {} && h.memory[first + CHUNK].free !in h.ring
    ensures h.Now() == State(HeapRuns.InitialChunks(first, last), HeapRuns.EmptyLists())
  {
    hide Ring, RingOk, ListsOk, Separate, Mapped, Cells, Buckets;
    var a, b, c := ThreeChunks(first, last);
    h := new Heap(map[first := a, first + CHUNK := b, last := c], [a.all, b.all, c.all]);
    NoLists(h.ring, h.lists, h.freeChunks, h.memory);
    ThreeRing(a, b, c, h.memory);
    assert h.InUse() == {first, last};
    ThreeCells(a.all, b.all, c.all);
  }

  method ThreeChunks(first: nat, last: nat) returns (a: ChunkHeader, b: ChunkHeader, c: ChunkHeader)
    requires first + 2 * CHUNK <= last
    ensures fresh(a) && fresh(b) && fresh(c) && fresh(b.free) && Ring([a.all, b.all, c.all]) && Ring([b.free])
    ensures a.all.at == first && b.all.at == first + CHUNK && c.all.at == last && a.used && !b.used && c.used
    ensures forall x :: x in {a, b, c} ==> x.free.at == x.all.at + HEADER
    ensures forall x, y :: x in {a, b, c} && y in {a, b, c} ==> x.all != y.free
  {
    hide Ring;
    a := new ChunkHeader(first);
    b := new ChunkHeader(first + CHUNK);
    c := new ChunkHeader(last);
    LinkThree(a.all, b.all, c.all, b.free);
    a.used := true;
    c.used := true;
  }

  lemma NoLists(ring: seq<ListEntry>, lists: seq<seq<ListEntry>>, heads: seq<nat>, memory: map<nat, ChunkHeader>)
    requires |lists| == |heads| == SLOTS && forall n :: 0 <= n < SLOTS ==> heads[n] == 0 && lists[n] == []
    ensures Members(lists) == {} && ListsOk(lists, heads, memory) && Separate(ring, lists)
    ensures Buckets(lists) == HeapRuns.EmptyLists()
  {
  }

  lemma ThreeRing(a: ChunkHeader, b: ChunkHeader, c: ChunkHeader, memory: map<nat, ChunkHeader>)
    requires Ring([a.all, b.all, c.all]) && 0 < a.all.at < b.all.at < c.all.at
    requires memory == map[a.all.at := a, b.all.at := b, c.all.at := c]
    requires forall x :: x in {a, b, c} ==> x.free.at == x.all.at + HEADER
    requires forall x, y :: x in {a, b, c} && y in {a, b, c} ==> x.all != y.free
    ensures RingOk([a.all, b.all, c.all], memory) && Mapped(memory)
  {
    hide Ring;
  }

  lemma ThreeCells(a: ListEntry, b: ListEntry, c: ListEntry)
    requires a.at < b.at < c.at
    ensures Cells([a, b, c], {a.at, c.at}) == [Chunk(a.at, true), Chunk(b.at, false), Chunk(c.at, true)]
  {
  }

  method LinkThree(a: ListEntry, b: ListEntry, c: ListEntry, ghost alone: ListEntry)
    requires Ring([a]) && Ring([b]) && Ring([c]) && Ring([alone]) && a != b && a != c && b != c
    requires alone != a && alone != b && alone != c
    modifies a, b, c
    ensures Ring([a, b, c]) && Ring([alone])
  {
    assert [a] + [] == [a] && [b] + [] == [b] && [c] + [] == [c];
    LoopsBack(a);
    LoopsBack(b);
    LoopsBack(c);
    KernelLists.InsertAfter(a, b, [], []);
    assert [a] + ([b] + []) + [] == [a] + [b];
    Rotate([a], [b]);
    NextInList([b] + [a]);
    KernelLists.InsertAfter(b, c, [a], []);
    assert [b] + ([c] + []) + [a] == [b, c] + [a];
    Rotate([b, c], [a]);
    assert [a] + [b, c] == [a, b, c];
  }

  // ---------- calls, with all that they may change ----------

  /** The heap's own memory. */
  ghost function Footprint(h: Heap): set<object>
    reads h
  {
    {h} + (set a | a in h.memory :: h.memory[a]) + (set a | a in h.memory :: h.memory[a].all)
    + (set a | a in h.memory :: h.memory[a].free)
  }

  lemma Covers(h: Heap)
    requires Ready(h)
    ensures forall e :: e in Links(h.ring) ==> e in Footprint(h)
    ensures forall x :: x in Members(h.lists) ==> x in Footprint(h)
    ensures forall x :: x in FreeLinks(h) ==> x in Footprint(h)
    ensures forall c :: c in h.memory.Values ==> c in Footprint(h)
  {
    hide Ring, Valid;
    forall x | x in Members(h.lists) ensures x in Footprint(h) {
      var n :| 0 <= n < |h.lists| && x in h.lists[n];
      assert ListOk(h.lists[n], h.freeChunks[n], h.memory);
      assert IsFreeLink(x, h.memory);
    }
  }

  /** A request, with all that it may change. */
  method Request(h: Heap, size: nat) returns (p: nat)
    requires Ready(h) && size < TWO64
    modifies Footprint(h)
    ensures Ready(h) && fresh(Footprint(h) - old(Footprint(h)))
    ensures h.Now() == Allocate(old(h.Now()), size).0
    ensures p == match Allocate(old(h.Now()), size).1 case None => 0 case Some(a) => a
    ensures p == 0 <==> Choice(old(h.Now()), size).None?
  {
    hide Ready, Heap.Woven, Heap.Now, Allocate, Choice;
    Covers(h);
    p := Malloc(h, size);
  }

  /** A block given back, with all that it may change. */
  method GiveBack(h: Heap, addr: nat)
    requires Ready(h) && HeapRuns.Legal(h.Now(), HeapRuns.Op.Free(addr))
    modifies Footprint(h)
    ensures Ready(h) && fresh(Footprint(h) - old(Footprint(h)))
    ensures h.Now() == HeapResize.Freed(old(h.Now()), addr)
  {
    hide Ready, Heap.Woven, Heap.Now, HeapResize.Freed, HeapResize.Frees;
    Covers(h);
    Free(h, addr);
  }

  // ---------- moving a block ----------

  /** The memory with the bytes of the blocks reaches as far as the heap. */
  ghost predicate Reaches(s: State, m: seq<Bytes.byte>) {
    s.chunks != [] && s.chunks[|s.chunks| - 1].at <= |m|
  }

  /** The size of a block, as its header gives it. */
  lemma BlockSize(h: Heap, addr: nat)
    requires Ready(h) && HeapResize.Frees(h.Now(), addr)
    ensures addr - HEADER in h.memory
    ensures var link := h.memory[addr - HEADER].all;
            link.flink != null && link.flink.at - link.at - HEADER == HeapResize.LengthOf(h.Now(), addr)
  {
    hide Ring, RingOk, ListsOk, Separate, Mapped, Valid;
    LinkAt(h, IndexOf(h.Now().chunks, addr - HEADER));
  }

  /** The bytes of the blocks are kept apart from the headers. */
  lemma Elsewhere(h: Heap, ram: array<Bytes.byte>)
    ensures ram !in Footprint(h)
  {
  }

  /** The copy has written over the header of a chunk: the heap may be anything. */
  method WriteOver(h: Heap, ram: array<Bytes.byte>)
    modifies Footprint(h), ram
  {
    h.memory, h.freeChunks := *, *;
    for a := 0 to ram.Length {
      ram[a] := *;
    }
  }

  /** Copies bytes from block to block. */
  method CopyBytes(h: Heap, ram: array<Bytes.byte>, p: nat, addr: nat, len: nat)
    requires Ready(h) && (p <= addr || addr + len <= p) && p + len <= ram.Length && addr + len <= ram.Length
    modifies ram
    ensures Ready(h) && h.Now() == old(h.Now())
    ensures ram[..] == HeapBytes.Copied(old(ram[..]), p, addr, len)
  {
    hide Ring, RingOk, ListsOk, Separate, Mapped, Valid, HeapBytes.Copied;
    assert forall y :: y in Links(h.ring) ==> allocated(y) && y as object != ram;
    assert forall y :: y in Members(h.lists) ==> allocated(y) && y as object != ram;
    assert forall c :: c in h.memory.Values ==> allocated(c) && c as object != ram;
    HeapBytes.CopiedIsOverwritten(ram[..], p, addr, len);
    Bytes.CopyFromStart(ram, p, addr, len);
    assert RingOk(h.ring, h.memory) && ListsOk(h.lists, h.freeChunks, h.memory);
    assert h.InUse() == old(h.InUse());
  }

  /**
    * Takes a new block, copies the old one there and frees it.  If the new block is
    * shorter than the old one, the copy goes on into the next chunk, and nothing is
    * known of the heap any more.
    */
  method Realloc(h: Heap, ram: array<Bytes.byte>, addr: nat, size: nat) returns (p: nat)
    requires Ready(h) && (addr == 0 || HeapResize.Frees(h.Now(), addr)) && size < TWO64
    requires Reaches(h.Now(), ram[..])
    modifies Footprint(h), ram
    ensures match HeapResize.Resized(old(h.Now()), addr, size)
            case Spoiled => p != 0
            case Sound(s, block) =>
              && Ready(h) && fresh(Footprint(h) - old(Footprint(h))) && h.Now() == s
              && p == (match block case None => 0 case Some(a) => a)
              && ram[..] == HeapBytes.BytesAfter(old(h.Now()), HeapRuns.Op.Realloc(addr, size), old(ram[..]))
  {
    if addr == 0 {
      return 0;
    }
    p := Move(h, ram, addr, size);
  }

  method Move(h: Heap, ram: array<Bytes.byte>, addr: nat, size: nat) returns (p: nat)
    requires Ready(h) && HeapResize.Frees(h.Now(), addr) && size < TWO64
    requires Reaches(h.Now(), ram[..])
    modifies Footprint(h), ram
    ensures match HeapResize.Resized(old(h.Now()), addr, size)
            case Spoiled => p != 0
            case Sound(s, block) =>
              && Ready(h) && fresh(Footprint(h) - old(Footprint(h))) && h.Now() == s
              && p == (match block case None => 0 case Some(a) => a)
              && ram[..] == HeapBytes.BytesAfter(old(h.Now()), HeapRuns.Op.Realloc(addr, size), old(ram[..]))
  {
    hide Heap.Woven, Heap.Now, Allocate, Choice, HeapResize.Freed, HeapResize.Frees, HeapResize.LengthOf, Footprint,
      Valid, Granted, HeapResize.CopyStaysInside;
    ghost var s, first, m := h.Now(), Footprint(h), ram[..];
    BlockSize(h, addr);
    var link := h.memory[addr - HEADER].all;
    var chunkSize := link.flink.at - link.at - HEADER;
    AllocateKeeps(s, size);
    Elsewhere(h, ram);
    p := Request(h, size);
    assert ram[..] == m;
    ghost var mid := Footprint(h);
    if p == 0 {
      return;
    }
    HeapResize.OtherStays(s, size, addr);
    HeapResize.CopyInsideExactly(s, addr, size);
    HeapBytes.NewFrees(s, size, p);
    BlockSize(h, p);
    link := h.memory[p - HEADER].all;
    // The source does not ask: from here on the copy decides what becomes of the heap.
    if link.flink.at - link.at - HEADER < chunkSize {
      WriteOver(h, ram);
      return;
    }
    HeapBytes.CopyReady(s, addr, size, p);
    CopyBytes(h, ram, p, addr, chunkSize);
    assert Footprint(h) == mid;
    Elsewhere(h, ram);
    label Copying:
    GiveBack(h, addr);
    forall o | o in Footprint(h) && o !in first ensures fresh(o) {
      if o !in mid {
        assert o in Footprint(h) - mid;
        assert fresh@Copying(o);
      } else {
        assert o in mid - first;
      }
    }
    assert first == old(Footprint(h));
  }

  // ---------- runs ----------

  /** One call, with all that it may change. */
  method Step(h: Heap, ram: array<Bytes.byte>, op: HeapRuns.Op)
    requires Ready(h) && HeapRuns.Legal(h.Now(), op) && (!op.Free? ==> op.size < TWO64)
    requires Reaches(h.Now(), ram[..])
    modifies Footprint(h), ram
    ensures Ready(h) && fresh(Footprint(h) - old(Footprint(h))) && h.Now() == HeapRuns.Do(old(h.Now()), op)
    ensures ram[..] == HeapBytes.BytesAfter(old(h.Now()), op, old(ram[..]))
  {
    hide Ready, Heap.Woven, Heap.Now, Allocate, Choice, HeapResize.Freed, HeapResize.Frees;
    match op
    case Malloc(size) =>
      var _ := Request(h, size);
    case Free(addr) =>
      GiveBack(h, addr);
    case Realloc(addr, size) =>
      var _ := Realloc(h, ram, addr, size);
  }

  /** Over every legal run, the rings and the bytes do what the specification does to the values. */
  method RunCalls(h: Heap, ram: array<Bytes.byte>, ops: seq<HeapRuns.Op>)
    requires Ready(h) && HeapRuns.AllLegal(h.Now(), ops) && Reaches(h.Now(), ram[..])
    requires forall k :: 0 <= k < |ops| && !ops[k].Free? ==> ops[k].size < TWO64
    modifies Footprint(h), ram
    ensures Ready(h) && h.Now() == HeapRuns.Run(old(h.Now()), ops)
    ensures ram[..] == HeapBytes.RunBytes(old(h.Now()), ops, old(ram[..]))
  {
    hide Ready, Heap.Now, Footprint, HeapRuns.Do, HeapRuns.Legal, HeapBytes.BytesAfter;
    var k := 0;
    assert ops[0..] == ops;
    while k < |ops|
      invariant 0 <= k <= |ops| && Ready(h) && Reaches(h.Now(), ram[..])
      invariant forall o :: o in Footprint(h) ==> o in old(Footprint(h)) || fresh(o)
      invariant HeapRuns.AllLegal(h.Now(), ops[k..])
      invariant HeapRuns.Run(h.Now(), ops[k..]) == HeapRuns.Run(old(h.Now()), ops)
      invariant HeapBytes.RunBytes(h.Now(), ops[k..], ram[..])
        == HeapBytes.RunBytes(old(h.Now()), ops, old(ram[..]))
    {
      assert ops[k..][0] == ops[k] && ops[k..][1..] == ops[k + 1..];
      ghost var first, mid := old(Footprint(h)), Footprint(h);
      ReadyValid(h);
      HeapRuns.DoKeeps(h.Now(), ops[k]);
      label Before:
      Step(h, ram, ops[k]);
      forall o | o in Footprint(h) ensures o in first || fresh(o) {
        if o !in mid {
          assert o in Footprint(h) - mid;
          assert fresh@Before(o);
        }
      }
      k := k + 1;
    }
  }

  lemma ReadyValid(h: Heap)
    requires Ready(h)
    ensures Valid(h.Now())
  {
  }
}
