/** Whole runs of the kernel heap: what one call undoes, and what every run keeps. */
module HeapRuns {
  import opened Machine
  import opened Arith
  import opened Seqs
  import opened HeapModel
  import opened HeapOps
  import opened HeapResize

  // ---------- freeing undoes allocating ----------

  lemma RemovePushed(buckets: seq<seq<nat>>, n: int, a: nat)
    ensures Unfiled(Pushed(buckets, n, a), n, a) == buckets
  {
    if 0 <= n < |buckets| {
      assert ([a] + buckets[n])[1..] == buckets[n];
    }
  }

  lemma PushTaken(buckets: seq<seq<nat>>, k: nat)
    requires k < |buckets| && buckets[k] != []
    ensures Pushed(buckets[k := buckets[k][1..]], k, buckets[k][0]) == buckets
  {
    HeadTail(buckets[k]);
  }

  lemma WithoutInserted(cs: seq<Chunk>, i: nat, c: Chunk)
    requires i + 1 < |cs|
    ensures Without(Inserted(cs, i, c), i + 1) == cs
    ensures Inserted(cs, i, c)[i + 1] == c && Inserted(cs, i, c)[i] == cs[i] && Inserted(cs, i, c)[i + 2] == cs[i + 1]
    ensures Inserted(cs, i, c)[|cs|] == cs[|cs| - 1]
  {
  }

  lemma MarkedBack(cs: seq<Chunk>, i: nat)
    requires 0 < i && i + 1 < |cs| && !cs[i].used
    ensures Marked(Marked(cs, i, true), i, false) == cs
    ensures Marked(cs, i, true)[i - 1] == cs[i - 1] && Marked(cs, i, true)[i] == Chunk(cs[i].at, true)
    ensures Marked(cs, i, true)[i + 1] == cs[i + 1]
    ensures Marked(cs, i, true)[|cs| - 1].used == (i == |cs| - 1 || cs[|cs| - 1].used)
  {
  }

  /** The rest that was carved off is absorbed again. */
  lemma AbsorbsRest(s: State, i: nat, size: nat)
    requires 0 < i < |s.chunks| - 1 && !s.chunks[i].used && s.chunks[i + 1].used && s.chunks[|s.chunks| - 1].used
    ensures var s' := Carved(s, i, size);
            && i + 1 < |s'.chunks| && s'.chunks[|s'.chunks| - 1].used && s'.chunks[i] == Chunk(s.chunks[i].at, true)
            && AbsorbNext(s', i) == State(Marked(s.chunks, i, true), s.buckets)
  {
    hide Slot, Marked, Inserted, Without, Pushed, Unfiled;
    var cs := s.chunks;
    MarkedBack(cs, i);
    if size + CHUNK <= SizeAt(cs, i) {
      var rest := Chunk(cs[i].at + HEADER + size, false);
      MarkedInserted(cs, i, rest);
      WithoutInserted(Marked(cs, i, true), i, rest);
      RemovePushed(s.buckets, Slot(SizeAt(cs, i) - size - HEADER), rest.at);
    }
  }

  /** Freeing what was just allocated gives back the very same heap, lists included. */
  lemma FreeUndoesAllocate(s: State, size: nat)
    requires Valid(s) && Allocate(s, size).1.Some?
    ensures var (s', p) := Allocate(s, size);
            var i := IndexOf(s'.chunks, p.value - HEADER);
            && 0 < i < |s'.chunks| - 1 && s'.chunks[i].used && s'.chunks[|s'.chunks| - 1].used
            && Release(s', i) == s
  {
    hide Blocks, Slot, Carved, AbsorbNext, Coalesced, AllOk, Filed, Marked, Pushed, FirstSlot, Rounded;
    Chosen(s, size);
    var (k, i) := Choice(s, size).value;
    NextUsed(s.chunks, i);
    var taken := State(s.chunks, s.buckets[k := s.buckets[k][1..]]);
    AbsorbsRest(taken, i, Rounded(size));
    AllocateKeeps(s, size);
    IndexUnique(Allocate(s, size).0.chunks, i);
    SameSlot(s.chunks, i);
    MarkedBack(s.chunks, i);
    PushTaken(s.buckets, k);
    SizeInRange(s.chunks, i);
  }

  lemma SameSlot(cs: seq<Chunk>, i: nat)
    requires i + 1 < |cs|
    ensures SlotAt(Marked(cs, i, true), i) == SlotAt(cs, i)
  {
  }

  // ---------- runs ----------

  datatype Op = Malloc(size: nat) | Free(addr: nat) | Realloc(addr: nat, size: nat)

  /** Nothing is freed or moved but null and what is in use, and nothing is moved that does not fit. */
  predicate Legal(s: State, op: Op) {
    match op
    case Malloc(_) => true
    case Free(addr) => addr == 0 || Frees(s, addr)
    case Realloc(addr, size) => addr == 0 || (Frees(s, addr) && Resized(s, addr, size).Sound?)
  }

  function Do(s: State, op: Op): State {
    match op
    case Malloc(size) => Allocate(s, size).0
    case Free(addr) => Freed(s, addr)
    case Realloc(addr, size) =>
      if Frees(s, addr) && Resized(s, addr, size).Sound? then Resized(s, addr, size).heap else s
  }

  function Run(s: State, ops: seq<Op>): State
    decreases |ops|
  {
    if ops == [] then s else Run(Do(s, ops[0]), ops[1..])
  }

  predicate AllLegal(s: State, ops: seq<Op>)
    decreases |ops|
  {
    ops == [] || (Legal(s, ops[0]) && AllLegal(Do(s, ops[0]), ops[1..]))
  }

  /** The sentinels, and the place of the first chunk between them, never change. */
  predicate SameEnds(s: State, s': State) {
    && |s.chunks| >= 2 && |s'.chunks| >= 2
    && s'.chunks[0] == s.chunks[0] && s'.chunks[1].at == s.chunks[1].at
    && s'.chunks[|s'.chunks| - 1] == s.chunks[|s.chunks| - 1]
  }

  lemma CarvedEnds(s: State, i: nat, size: nat)
    requires 0 < i < |s.chunks| - 1
    ensures SameEnds(s, Carved(s, i, size))
  {
    hide Slot;
  }

  lemma AbsorbEnds(s: State, i: nat)
    requires 0 < i < |s.chunks| - 1 && s.chunks[|s.chunks| - 1].used
    ensures SameEnds(s, AbsorbNext(s, i))
  {
    hide Slot;
  }

  lemma FreeEnds(s: State, i: nat)
    requires 0 < i < |s.chunks| - 1 && s.chunks[0].used
    ensures SameEnds(s, FreeInto(s, i))
  {
    hide Slot;
  }

  lemma AllocateEnds(s: State, size: nat)
    requires Valid(s)
    ensures Valid(Allocate(s, size).0) && SameEnds(s, Allocate(s, size).0)
  {
    hide Valid, Carved, Blocks, UsedBag, Choice, Rounded;
    Sentinels(s);
    AllocateKeeps(s, size);
    if Choice(s, size).Some? {
      Chosen(s, size);
      var (k, i) := Choice(s, size).value;
      CarvedEnds(State(s.chunks, s.buckets[k := s.buckets[k][1..]]), i, Rounded(size));
    }
  }

  lemma FreedEnds(s: State, addr: nat)
    requires Valid(s)
    ensures Valid(Freed(s, addr)) && SameEnds(s, Freed(s, addr))
  {
    hide Valid, AbsorbNext, FreeInto, Blocks, UsedBag;
    Sentinels(s);
    if Frees(s, addr) {
      var i := IndexOf(s.chunks, addr - HEADER);
      ReleaseKeeps(s, i);
      AbsorbEnds(s, i);
      FreeEnds(AbsorbNext(s, i), i);
    }
  }

  lemma DoKeeps(s: State, op: Op)
    requires Valid(s) && Legal(s, op)
    ensures Valid(Do(s, op)) && SameEnds(s, Do(s, op))
  {
    hide Valid, Allocate, Freed, Frees, CopyStaysInside;
    Sentinels(s);
    match op
    case Malloc(size) => AllocateEnds(s, size);
    case Free(addr) => FreedEnds(s, addr);
    case Realloc(addr, size) =>
      AllocateEnds(s, size);
      FreedEnds(Allocate(s, size).0, addr);
  }

  /** The heap is valid in every state that a legal run reaches. */
  lemma {:induction false} RunKeeps(s: State, ops: seq<Op>)
    requires Valid(s) && AllLegal(s, ops)
    ensures Valid(Run(s, ops)) && SameEnds(s, Run(s, ops))
    decreases |ops|
  {
    hide Valid, Do, Legal;
    Sentinels(s);
    if ops != [] {
      DoKeeps(s, ops[0]);
      RunKeeps(Do(s, ops[0]), ops[1..]);
    }
  }

  /** Blocks do not overlap: one ends, at the latest, where the next begins. */
  lemma Disjoint(s: State, i: nat, j: nat)
    requires Valid(s) && i < j < |s.chunks| - 1
    ensures SizeAt(s.chunks, i) >= MIN_SIZE
    ensures s.chunks[i].at + HEADER + SizeAt(s.chunks, i) <= s.chunks[j].at
  {
    hide Coalesced, Filed, Blocks;
    SizeInRange(s.chunks, i);
    if i + 1 < j {
      Ordered(s.chunks, i + 1, j);
    }
  }

  // ---------- the start ----------

  function AlignUp(a: nat): nat {
    (a + 3) / 4 * 4
  }

  function AlignDown(a: nat): nat {
    a / 4 * 4
  }

  /** One free chunk between two sentinels. */
  function Initial(first: nat, last: nat): State
    requires first + 2 * CHUNK <= last
  {
    var size := last - first - CHUNK - HEADER;
    State(InitialChunks(first, last), Pushed(EmptyLists(), Slot(size), first + CHUNK))
  }

  function InitialChunks(first: nat, last: nat): seq<Chunk> {
    [Chunk(first, true), Chunk(first + CHUNK, false), Chunk(last, true)]
  }

  function EmptyLists(): (r: seq<seq<nat>>)
    ensures |r| == SLOTS && forall n :: 0 <= n < SLOTS ==> r[n] == []
  {
    seq(SLOTS, _ => [])
  }

  lemma InitialBlocks(first: nat, last: nat)
    requires first + 2 * CHUNK <= last
    ensures Blocks(Initial(first, last).chunks)
      == [Block(first, MIN_SIZE, true), Block(first + CHUNK, last - first - CHUNK - HEADER, false)]
  {
    var cs := Initial(first, last).chunks;
    assert cs[1..] == [cs[1], cs[2]];
    assert cs[1..][1..] == [cs[2]];
  }

  lemma InitialValid(first: nat, last: nat)
    requires first % 4 == 0 && last % 4 == 0 && first + 2 * CHUNK <= last < first + TWO32
    ensures Valid(Initial(first, last))
  {
    hide Blocks, Slot, FreeBag;
    var s := Initial(first, last);
    var b1, b2 := Block(first, MIN_SIZE, true), Block(first + CHUNK, last - first - CHUNK - HEADER, false);
    InitialBlocks(first, last);
    SlotInRange(b2.size);
    forall n | 0 <= n < SLOTS ensures multiset(s.buckets[n]) == FreeBag([b1, b2], n) {
      BagOfTwo(b1, b2, n);
      PushedBag(EmptyLists(), b2, n);
    }
  }

  lemma ClassOfTwenty()
    ensures Rounded(20) == 20 && FirstSlot(20) == 5 && Pow2(5) == 32
  {
    assert Slot(19) == 4;
  }

  /** A request for 20 bytes is refused by a fresh heap with 24 free bytes. */
  lemma RefusedThoughLargeEnough()
    ensures var s := Initial(4096, 4184);
            && Valid(s) && Blocks(s.chunks)[1] == Block(4136, 24, false)
            && Rounded(20) == 20 && Choice(s, 20).None?
  {
    hide Valid, Blocks, Slot, Choice, Initial, FirstSlot, Rounded, Pow2;
    ClassOfTwenty();
    var s := Initial(4096, 4184);
    InitialValid(4096, 4184);
    InitialBlocks(4096, 4184);
    RefusedBelow(s, 20);
  }

  lemma AtMostOne(a: seq<nat>, b: seq<nat>)
    requires multiset(a) == multiset(b) && |a| <= 1
    ensures a == b
  {
    assert |multiset(a)| == |a| && |multiset(b)| == |b|;
    if |a| == 1 {
      assert a[0] in multiset(b);
    }
  }

  /** Between the sentinels nothing is in use. */
  predicate Drained(s: State) {
    forall i :: 0 < i < |s.chunks| - 1 ==> !s.chunks[i].used
  }

  lemma DrainedChunks(s: State, first: nat, last: nat)
    requires Valid(s) && Drained(s) && first + 2 * CHUNK <= last && SameEnds(Initial(first, last), s)
    ensures s.chunks == Initial(first, last).chunks
  {
    hide Blocks, Filed, Slot;
    var cs := s.chunks;
    if |cs| > 3 {
      NextUsed(cs, 1);
    }
  }

  /** Over every run, memory comes back: when all has been freed, the heap is as it was at the start. */
  lemma DrainedIsInitial(first: nat, last: nat, ops: seq<Op>)
    requires first % 4 == 0 && last % 4 == 0 && first + 2 * CHUNK <= last < first + TWO32
    requires AllLegal(Initial(first, last), ops) && Drained(Run(Initial(first, last), ops))
    ensures Run(Initial(first, last), ops) == Initial(first, last)
  {
    hide Blocks, Slot, FreeBag, Run, AllLegal, Coalesced, AllOk, Drained, SameEnds;
    var s0 := Initial(first, last);
    var s := Run(s0, ops);
    InitialValid(first, last);
    RunKeeps(s0, ops);
    DrainedChunks(s, first, last);
    forall n | 0 <= n < SLOTS ensures s.buckets[n] == s0.buckets[n] {
      AtMostOne(s0.buckets[n], s.buckets[n]);
    }
  }

  // ---------- a block that does not fit ----------

  /** A fresh heap of 256 bytes, after a request for 100 bytes. */
  function AfterRequest(): State {
    State([Chunk(4096, true), Chunk(4136, true), Chunk(4260, false), Chunk(4416, true)],
          Pushed(EmptyLists(), 7, 4260))
  }

  lemma SlotValues()
    ensures Slot(99) == 6 && Slot(256) == 8 && Slot(132) == 7
  {
    assert Slot(4) == 2;
    assert Slot(16) == 4;
    assert Slot(66) == 6;
  }

  lemma AfterRequestChoice()
    ensures Choice(Initial(4096, 4416), 100) == Some((8, 1))
  {
    var s := Initial(4096, 4416);
    SlotValues();
    hide Slot, IndexOf, FirstFilled;
    assert FirstSlot(100) == 7 && s.buckets[7] == [] && s.buckets[8] == [4136];
    assert FirstFilled(s.buckets, 7) == 8;
  }

  lemma AfterRequestReached()
    ensures Run(Initial(4096, 4416), [Malloc(100)]) == AfterRequest() && Valid(AfterRequest())
  {
    hide Valid, Blocks, UsedBag, Choice, Slot, Granted;
    var s := Initial(4096, 4416);
    SlotValues();
    InitialValid(4096, 4416);
    AllocateKeeps(s, 100);
    AfterRequestChoice();
    assert s.buckets[8 := s.buckets[8][1..]] == EmptyLists();
    assert Allocate(s, 100).0.chunks == AfterRequest().chunks;
    assert [Malloc(100)][1..] == [];
  }

  /** Its one block, moved to one of 16 bytes. */
  lemma ShrinkingExample()
    ensures var s := Run(Initial(4096, 4416), [Malloc(100)]);
            && Valid(s) && Frees(s, 4160) && Choice(s, 16).Some?
            && !CopyStaysInside(s, 4160, 16) && Resized(s, 4160, 16) == Spoiled
  {
    hide Valid, Slot, CopyStaysInside, Choice, Allocate, Blocks, UsedBag, Granted;
    var s := AfterRequest();
    AfterRequestReached();
    BlockAt(s.chunks, 2);
    TwiceIsEnough(s, 16, 2);
    ShrinkingOverruns(s, 4160, 16);
    AllocateKeeps(s, 16);
  }
}
