/**
  * Allocating and freeing on the kernel heap, as functions on its state, and what
  * they keep.
  */
module HeapOps {
  import opened Machine
  import opened Arith
  import opened Seqs
  import opened HeapModel

  // ---------- allocation ----------

  /** A request in whole units of four bytes; the addition wraps around. */
  function Rounded(size: nat): (r: nat)
    ensures r >= MIN_SIZE && r % 4 == 0
  {
    var r := (size + 3) % TWO64 / 4 * 4;
    if r < MIN_SIZE then MIN_SIZE else r
  }

  /** The first size class all of whose chunks are large enough. */
  function FirstSlot(size: nat): int {
    Slot(Rounded(size) - 1) + 1
  }

  function FirstFilled(buckets: seq<seq<nat>>, n: nat): (k: nat)
    requires n <= |buckets|
    ensures n <= k <= |buckets| && (k < |buckets| ==> buckets[k] != [])
    ensures forall l :: n <= l < k ==> buckets[l] == []
    decreases |buckets| - n
  {
    if n == |buckets| || buckets[n] != [] then n else FirstFilled(buckets, n + 1)
  }

  /** Chunk `i`, taken from its list, is put in use; what is left behind the request becomes a free chunk. */
  function Carved(s: State, i: nat, size: nat): State
    requires i + 1 < |s.chunks|
  {
    if size + CHUNK <= SizeAt(s.chunks, i) then
      var rest := Chunk(s.chunks[i].at + HEADER + size, false);
      var cs := Inserted(s.chunks, i, rest);
      State(Marked(cs, i, true), Pushed(s.buckets, Slot(SizeAt(s.chunks, i) - size - HEADER), rest.at))
    else
      State(Marked(s.chunks, i, true), s.buckets)
  }

  /** The chunk that is taken, and the list it is taken from. */
  function Choice(s: State, size: nat): Option<(nat, nat)> {
    var n := FirstSlot(size);
    if 0 <= n <= |s.buckets| then
      var k := FirstFilled(s.buckets, n);
      if k < |s.buckets| then Some((k, IndexOf(s.chunks, s.buckets[k][0]))) else None
    else None
  }

  function Allocate(s: State, size: nat): (State, Option<nat>) {
    match Choice(s, size)
    case None => (s, None)
    case Some((k, i)) =>
      if k < |s.buckets| && s.buckets[k] != [] && i + 1 < |s.chunks| then
        (Carved(State(s.chunks, s.buckets[k := s.buckets[k][1..]]), i, Rounded(size)), Some(s.chunks[i].at + HEADER))
      else (s, None)
  }

  /** What is kept of a chunk for a request. */
  function KeptLength(length: int, size: nat): int {
    if size + CHUNK <= length then size else length
  }

  /** The length of the block that a request is given. */
  function Granted(s: State, size: nat): int {
    match Choice(s, size)
    case None => 0
    case Some((_, i)) => if i + 1 < |s.chunks| then KeptLength(SizeAt(s.chunks, i), Rounded(size)) else 0
  }

  /** The chunk at the head of a list is a free chunk of that size class. */
  lemma HeadIsFree(s: State, k: nat)
    requires Valid(s) && k < |s.buckets| && s.buckets[k] != []
    ensures var i := IndexOf(s.chunks, s.buckets[k][0]);
            && 0 < i < |s.chunks| - 1 && s.chunks[i] == Chunk(s.buckets[k][0], false)
            && SizeAt(s.chunks, i) >= MIN_SIZE && Slot(SizeAt(s.chunks, i)) == k
  {
    hide FreeBag, Blocks, Coalesced, Slot;
    var a := s.buckets[k][0];
    assert a in multiset(s.buckets[k]);
    var j := FindFree(Blocks(s.chunks), k, a);
    SizeInRange(s.chunks, j);
    IndexUnique(s.chunks, j);
  }

  /** The blocks that replace the one that is taken. */
  function Pieces(b: Block, size: nat): seq<Block> {
    if size + CHUNK <= b.size then
      [Block(b.at, size, true), Block(b.at + HEADER + size, b.size - size - HEADER, false)]
    else [b.(used := true)]
  }

  lemma ReplacedTwice(bs: seq<Block>, i: nat, b: Block, repl: seq<Block>)
    requires i < |bs|
    ensures Replaced(Replaced(bs, i, 1, [b]), i, 1, repl) == Replaced(bs, i, 1, repl)
  {
  }

  lemma MarkedInserted(cs: seq<Chunk>, i: nat, c: Chunk)
    requires i + 1 < |cs|
    ensures Marked(Inserted(cs, i, c), i, true) == Inserted(Marked(cs, i, true), i, c)
  {
  }

  lemma CarvedBlocks(s: State, i: nat, size: nat)
    requires i + 1 < |s.chunks|
    ensures Blocks(Carved(s, i, size).chunks)
      == Replaced(Blocks(s.chunks), i, 1, Pieces(Blocks(s.chunks)[i], size))
  {
    hide Blocks, Replaced, Marked, Inserted;
    var cs := s.chunks;
    BlockAt(cs, i);
    BlocksMarked(cs, i, true);
    if size + CHUNK <= SizeAt(cs, i) {
      var rest := Chunk(cs[i].at + HEADER + size, false);
      MarkedInserted(cs, i, rest);
      MarkedAt(cs, i);
      BlocksInserted(Marked(cs, i, true), i, rest);
      ReplacedTwice(Blocks(cs), i, Blocks(cs)[i].(used := true), Pieces(Blocks(cs)[i], size));
    }
  }

  lemma MarkedAt(cs: seq<Chunk>, i: nat)
    requires i + 1 < |cs|
    ensures Marked(cs, i, true)[i] == Chunk(cs[i].at, true) && Marked(cs, i, true)[i + 1] == cs[i + 1]
  {
  }

  lemma BagOfOne(b: Block, n: int)
    ensures FreeBag([b], n) == FreeOne(b, n) && UsedBag([b]) == UsedOne(b)
  {
  }

  lemma BagOfTwo(b: Block, c: Block, n: int)
    ensures FreeBag([b, c], n) == FreeOne(b, n) + FreeOne(c, n) && UsedBag([b, c]) == UsedOne(b) + UsedOne(c)
  {
    assert [b, c] == [b] + [c];
    BagsConcat([b], [c], n);
    BagOfOne(b, n);
    BagOfOne(c, n);
  }

  /** Large enough for the request, also in the lowest size class that is searched. */
  lemma LargeEnough(size: nat, b: nat)
    requires b > 0 && Slot(b) >= FirstSlot(size)
    ensures b >= Rounded(size) && FirstSlot(size) >= 0
  {
    var r := Rounded(size);
    SlotBounds(r - 1);
    SlotBounds(b);
    Pow2Grows(FirstSlot(size), Slot(b));
    assert Pow2(FirstSlot(size)) == 2 * Pow2(Slot(r - 1));
  }

  /** The lists after chunk `b` was taken from the head of list `k` and its rest filed. */
  function Refiled(buckets: seq<seq<nat>>, k: nat, b: Block, size: nat): (r: seq<seq<nat>>)
    requires k < |buckets| && buckets[k] != []
    ensures |r| == |buckets|
  {
    var taken := buckets[k := buckets[k][1..]];
    if size + CHUNK <= b.size then Pushed(taken, Slot(b.size - size - HEADER), b.at + HEADER + size) else taken
  }

  lemma TakenBag(buckets: seq<seq<nat>>, k: nat, b: Block, n: nat)
    requires k < |buckets| && n < |buckets| && buckets[k] != [] && buckets[k][0] == b.at
    requires !b.used && b.size >= 0 && Slot(b.size) == k
    ensures multiset(buckets[k := buckets[k][1..]][n]) + FreeOne(b, n) == multiset(buckets[n])
  {
    hide Slot;
    HeadTail(buckets[k]);
    PushBag(buckets[k][1..], b.at);
  }

  lemma PushedBag(buckets: seq<seq<nat>>, b: Block, n: nat)
    requires n < |buckets| && !b.used && b.size >= 0 && 0 <= Slot(b.size) < |buckets|
    ensures multiset(Pushed(buckets, Slot(b.size), b.at)[n]) == multiset(buckets[n]) + FreeOne(b, n)
  {
    hide Slot;
    PushBag(buckets[n], b.at);
  }

  lemma RefiledBag(buckets: seq<seq<nat>>, k: nat, b: Block, size: nat, n: nat)
    requires k < |buckets| && n < |buckets| && buckets[k] != [] && buckets[k][0] == b.at
    requires !b.used && b.size >= 0 && Slot(b.size) == k
    requires size + CHUNK <= b.size ==> 0 <= Slot(b.size - size - HEADER) < |buckets|
    ensures multiset(Refiled(buckets, k, b, size)[n]) + FreeBag([b], n)
      == multiset(buckets[n]) + FreeBag(Pieces(b, size), n)
  {
    hide FreeBag, Slot, Pushed;
    BagOfOne(b, n);
    TakenBag(buckets, k, b, n);
    var taken := buckets[k := buckets[k][1..]];
    if size + CHUNK <= b.size {
      var b2 := Block(b.at + HEADER + size, b.size - size - HEADER, false);
      BagOfTwo(Block(b.at, size, true), b2, n);
      PushedBag(taken, b2, n);
      hide FreeOne;
    } else {
      BagOfOne(b.(used := true), n);
    }
  }

  lemma PiecesOk(b: Block, size: nat)
    requires BlockOk(b) && MIN_SIZE <= size <= b.size && size % 4 == 0
    ensures AllOk(Pieces(b, size)) && Pieces(b, size) != [] && Pieces(b, size)[0].used && Coalesced(Pieces(b, size))
    ensures Pieces(b, size)[0] == Block(b.at, KeptLength(b.size, size), true)
    ensures size <= KeptLength(b.size, size) < size + CHUNK
    ensures UsedBag(Pieces(b, size)) == multiset{(b.at, KeptLength(b.size, size))}
  {
    hide UsedBag;
    if size + CHUNK <= b.size {
      BagOfTwo(Block(b.at, size, true), Block(b.at + HEADER + size, b.size - size - HEADER, false), 0);
    } else {
      BagOfOne(b.(used := true), 0);
    }
  }

  /** A free block has used neighbours. */
  lemma Neighbours(bs: seq<Block>, i: nat)
    requires Coalesced(bs) && i < |bs| && !bs[i].used
    ensures i == 0 || bs[i - 1].used
    ensures i + 1 == |bs| || bs[i + 1].used
  {
  }

  /** What is known about the chunk that an allocation takes. */
  lemma Chosen(s: State, size: nat)
    requires Valid(s) && Choice(s, size).Some?
    ensures var (k, i) := Choice(s, size).value;
            && k < |s.buckets| && s.buckets[k] != [] && 0 < i < |s.chunks| - 1
            && s.chunks[i] == Chunk(s.buckets[k][0], false)
            && var b := Blocks(s.chunks)[i];
               && b == Block(s.buckets[k][0], SizeAt(s.chunks, i), false) && BlockOk(b) && Slot(b.size) == k
               && Rounded(size) <= b.size < TWO32
  {
    hide Blocks, Slot, FirstSlot, Coalesced, Filed;
    var (k, i) := Choice(s, size).value;
    HeadIsFree(s, k);
    SizeInRange(s.chunks, i);
    LargeEnough(size, SizeAt(s.chunks, i));
  }

  /**
    * An allocation keeps the heap valid.  When it succeeds, exactly one block, of
    * the granted length, is added to those in use; it has at least the rounded size
    * and less than a chunk more.  When it fails, nothing changes.
    */
  lemma {:induction false} AllocateKeeps(s: State, size: nat)
    requires Valid(s)
    ensures var (s', p) := Allocate(s, size);
            && Valid(s')
            && (p.None? <==> Choice(s, size).None?)
            && (p.None? ==> s' == s)
            && (p.Some? ==>
                  && p.value >= HEADER && p.value % 4 == 0
                  && Rounded(size) <= Granted(s, size) < Rounded(size) + CHUNK
                  && UsedBag(Blocks(s'.chunks))
                     == UsedBag(Blocks(s.chunks)) + multiset{(p.value - HEADER, Granted(s, size))})
  {
    hide Blocks, Slot, Choice, Carved, Shape, UsedBag, Coalesced, AllOk, Filed, Rounded;
    if Choice(s, size).Some? {
      Chosen(s, size);
      var (k, i) := Choice(s, size).value;
      CarvedKeeps(s, k, i, Rounded(size));
    }
  }

  lemma {:induction false} CarvedKeeps(s: State, k: nat, i: nat, size: nat)
    requires Valid(s) && k < |s.buckets| && s.buckets[k] != [] && 0 < i < |s.chunks| - 1
    requires var b := Blocks(s.chunks)[i];
             && b == Block(s.buckets[k][0], SizeAt(s.chunks, i), false) && BlockOk(b) && Slot(b.size) == k
             && MIN_SIZE <= size <= b.size < TWO32 && size % 4 == 0
    ensures var s' := Carved(State(s.chunks, s.buckets[k := s.buckets[k][1..]]), i, size);
            var len := KeptLength(SizeAt(s.chunks, i), size);
            && Valid(s') && size <= len < size + CHUNK
            && UsedBag(Blocks(s'.chunks)) == UsedBag(Blocks(s.chunks)) + multiset{(s.chunks[i].at, len)}
  {
    hide Blocks, Slot, FreeBag, UsedBag, Replaced, Coalesced, AllOk, Filed, Pieces, Carved, Shape;
    var bs := Blocks(s.chunks);
    var b := bs[i];
    var taken := State(s.chunks, s.buckets[k := s.buckets[k][1..]]);
    CarvedBlocks(taken, i, size);
    PiecesOk(b, size);
    Neighbours(bs, i);
    AllOkReplaced(bs, i, 1, Pieces(b, size));
    CoalescedReplaced(bs, i, 1, Pieces(b, size));
    CarvedShape(taken, i, size);
    CarvedFiled(s, k, i, size);
    OneTaken(bs, i, Pieces(b, size), KeptLength(b.size, size));
    BlockAt(s.chunks, i);
  }

  lemma OneTaken(bs: seq<Block>, i: nat, repl: seq<Block>, len: int)
    requires i < |bs| && !bs[i].used && UsedBag(repl) == multiset{(bs[i].at, len)}
    ensures UsedBag(Replaced(bs, i, 1, repl)) == UsedBag(bs) + multiset{(bs[i].at, len)}
  {
    hide UsedBag, Replaced;
    UsedDiffers(bs, i, 1, repl);
    NoneUsed(bs, i);
    NothingAdded(UsedBag(Replaced(bs, i, 1, repl)), UsedBag(bs) + UsedBag(repl));
  }

  lemma NoneUsed(bs: seq<Block>, i: nat)
    requires i < |bs| && !bs[i].used
    ensures UsedBag(bs[i..i + 1]) == multiset{}
  {
    assert bs[i..i + 1] == [bs[i]];
  }

  lemma UsedDiffers(bs: seq<Block>, i: nat, n: nat, repl: seq<Block>)
    requires i + n <= |bs|
    ensures UsedBag(Replaced(bs, i, n, repl)) + UsedBag(bs[i..i + n]) == UsedBag(bs) + UsedBag(repl)
  {
    hide UsedBag, Replaced, FreeBag;
    BagsDiffer(bs, i, n, repl, 0);
  }

  lemma NothingAdded<T>(a: multiset<T>, b: multiset<T>)
    requires a + multiset{} == b
    ensures a == b
  {
  }

  lemma CarvedShape(s: State, i: nat, size: nat)
    requires Shape(s.chunks) && 0 < i < |s.chunks| - 1
    ensures Shape(Carved(s, i, size).chunks)
  {
  }

  lemma CarvedBuckets(s: State, k: nat, i: nat, size: nat)
    requires k < |s.buckets| && s.buckets[k] != [] && i + 1 < |s.chunks|
    requires Blocks(s.chunks)[i] == Block(s.buckets[k][0], SizeAt(s.chunks, i), false)
    ensures Carved(State(s.chunks, s.buckets[k := s.buckets[k][1..]]), i, size).buckets
      == Refiled(s.buckets, k, Blocks(s.chunks)[i], size)
  {
    hide Blocks, Slot;
    BlockAt(s.chunks, i);
  }

  lemma CarvedFiled(s: State, k: nat, i: nat, size: nat)
    requires Filed(Blocks(s.chunks), s.buckets) && k < |s.buckets| && s.buckets[k] != [] && i + 1 < |s.chunks|
    requires Blocks(s.chunks)[i] == Block(s.buckets[k][0], SizeAt(s.chunks, i), false)
    requires MIN_SIZE <= SizeAt(s.chunks, i) < TWO32 && Slot(SizeAt(s.chunks, i)) == k
    ensures Filed(Replaced(Blocks(s.chunks), i, 1, Pieces(Blocks(s.chunks)[i], size)),
                  Carved(State(s.chunks, s.buckets[k := s.buckets[k][1..]]), i, size).buckets)
  {
    hide Blocks, Slot, FreeBag, Replaced, Pieces, Carved, Refiled, Filed;
    FiledCount(Blocks(s.chunks), s.buckets);
    CarvedBuckets(s, k, i, size);
    RefiledKeeps(Blocks(s.chunks), i, s.buckets, k, size);
  }

  lemma FiledCount(bs: seq<Block>, buckets: seq<seq<nat>>)
    requires Filed(bs, buckets)
    ensures |buckets| == SLOTS
  {
  }

  lemma RefiledKeeps(bs: seq<Block>, i: nat, buckets: seq<seq<nat>>, k: nat, size: nat)
    requires Filed(bs, buckets) && k < |buckets| == SLOTS && buckets[k] != [] && i < |bs|
    requires bs[i].at == buckets[k][0] && !bs[i].used && 0 < bs[i].size < TWO32 && Slot(bs[i].size) == k
    ensures Filed(Replaced(bs, i, 1, Pieces(bs[i], size)), Refiled(buckets, k, bs[i], size))
  {
    hide Slot, FreeBag, Replaced, Pieces, Refiled, Filed;
    var b := bs[i];
    if size + CHUNK <= b.size {
      SlotInRange(b.size - size - HEADER);
    }
    assert bs[i..i + 1] == [b];
    forall n | 0 <= n < SLOTS
      ensures multiset(Refiled(buckets, k, b, size)[n]) + FreeBag(bs[i..i + 1], n)
        == multiset(buckets[n]) + FreeBag(Pieces(b, size), n)
    {
      RefiledBag(buckets, k, b, size, n);
    }
    FiledReplaced(bs, i, 1, Pieces(b, size), buckets, Refiled(buckets, k, b, size));
  }

  /** A request is refused exactly when no free block is in a size class that is searched. */
  lemma {:induction false} RefusedBelow(s: State, size: nat)
    requires Valid(s)
    ensures FirstSlot(size) >= 0
    ensures Choice(s, size).None? <==>
      forall i :: 0 <= i < |Blocks(s.chunks)| && !Blocks(s.chunks)[i].used ==>
        Blocks(s.chunks)[i].size < Pow2(FirstSlot(size))
  {
    hide Blocks, Slot, Coalesced, FreeBag;
    var bs, n := Blocks(s.chunks), FirstSlot(size);
    SlotBounds(Rounded(size) - 1);
    if Choice(s, size).None? {
      forall i | 0 <= i < |bs| && !bs[i].used ensures bs[i].size < Pow2(n) {
        SizeInRange(s.chunks, i);
        FreeInBag(bs, i);
        SlotBounds(bs[i].size);
        if Slot(bs[i].size) >= n {
          assert false;
        }
        Pow2Grows(Slot(bs[i].size) + 1, n);
      }
    } else {
      Chosen(s, size);
      var (k, i) := Choice(s, size).value;
      SlotBounds(bs[i].size);
      Pow2Grows(n, k);
    }
  }

  /** A free block of twice the rounded size is always enough. */
  lemma TwiceIsEnough(s: State, size: nat, i: nat)
    requires Valid(s) && i < |Blocks(s.chunks)| && !Blocks(s.chunks)[i].used
    requires Blocks(s.chunks)[i].size >= 2 * Rounded(size)
    ensures Choice(s, size).Some?
  {
    hide Blocks, Slot, Coalesced, FreeBag, Filed, Valid;
    RefusedBelow(s, size);
    SlotBounds(Rounded(size) - 1);
    assert Pow2(FirstSlot(size)) == 2 * Pow2(Slot(Rounded(size) - 1));
  }

  /** The request is met, except that one of the last three sizes wraps around to the smallest block. */
  lemma RoundedExactly(size: nat)
    requires size < TWO64
    ensures Rounded(size) >= size <==> size <= TWO64 - 4
  {
  }

  // ---------- freeing ----------

  /** The chunk behind, if it is free, is taken from its list and becomes part of chunk `i`. */
  function AbsorbNext(s: State, i: nat): (s': State)
    requires i + 1 < |s.chunks| && s.chunks[|s.chunks| - 1].used
    ensures i + 1 < |s'.chunks|
  {
    if s.chunks[i + 1].used then s
    else State(Without(s.chunks, i + 1), Unfiled(s.buckets, SlotAt(s.chunks, i + 1), s.chunks[i + 1].at))
  }

  /** Chunk `i` becomes free, or part of the free chunk in front of it, which changes its size class. */
  function FreeInto(s: State, i: nat): State
    requires 0 < i && i + 1 < |s.chunks|
  {
    if s.chunks[i - 1].used then
      State(Marked(s.chunks, i, false), Pushed(s.buckets, SlotAt(s.chunks, i), s.chunks[i].at))
    else
      var cs := Without(s.chunks, i);
      var at := s.chunks[i - 1].at;
      State(cs, Pushed(Unfiled(s.buckets, SlotAt(s.chunks, i - 1), at), SlotAt(cs, i - 1), at))
  }

  function Release(s: State, i: nat): State
    requires 0 < i && i + 1 < |s.chunks| && s.chunks[|s.chunks| - 1].used
  {
    FreeInto(AbsorbNext(s, i), i)
  }

  function SlotAt(cs: seq<Chunk>, i: nat): int
    requires i + 1 < |cs|
  {
    if SizeAt(cs, i) >= 0 then Slot(SizeAt(cs, i)) else -1
  }

  /** The lists after a free block was taken out of its list. */
  lemma UnfiledBag(bs: seq<Block>, i: nat, buckets: seq<seq<nat>>, n: nat)
    requires Filed(bs, buckets) && i < |bs| && !bs[i].used && bs[i].size >= 0
    requires 0 <= Slot(bs[i].size) < SLOTS && n < SLOTS
    ensures multiset(Unfiled(buckets, Slot(bs[i].size), bs[i].at)[n]) + FreeOne(bs[i], n) == multiset(buckets[n])
  {
    hide Slot, FreeBag;
    FreeInBag(bs, i);
    if n == Slot(bs[i].size) {
      RemoveFirstBag(buckets[n], bs[i].at);
    }
  }

  // ---------- what freeing keeps ----------

  lemma Sentinels(s: State)
    requires Valid(s)
    ensures |s.chunks| >= 2 && s.chunks[0].used && s.chunks[|s.chunks| - 1].used && |s.buckets| == SLOTS
  {
  }

  lemma {:induction false} AbsorbKeeps(s: State, i: nat)
    requires Valid(s) && 0 < i < |s.chunks| - 1 && s.chunks[i].used
    ensures var s' := AbsorbNext(s, i);
            && Valid(s') && s'.chunks[..i + 1] == s.chunks[..i + 1] && s'.chunks[i + 1].used
            && UsedBag(Blocks(s'.chunks)) + multiset{(s.chunks[i].at, SizeAt(s.chunks, i))}
               == UsedBag(Blocks(s.chunks)) + multiset{(s.chunks[i].at, SizeAt(s'.chunks, i))}
  {
    hide Valid, UsedBag, Blocks, Without, Unfiled, Slot;
    Sentinels(s);
    if !s.chunks[i + 1].used {
      AbsorbFree(s, i);
    }
  }

  lemma {:induction false} AbsorbFree(s: State, i: nat)
    requires Valid(s) && 0 < i && i + 2 < |s.chunks| && s.chunks[i].used && !s.chunks[i + 1].used
    ensures var s' := AbsorbNext(s, i);
            && Valid(s') && s'.chunks[..i + 1] == s.chunks[..i + 1] && s'.chunks[i + 1].used
            && UsedBag(Blocks(s'.chunks)) + multiset{(s.chunks[i].at, SizeAt(s.chunks, i))}
               == UsedBag(Blocks(s.chunks)) + multiset{(s.chunks[i].at, SizeAt(s'.chunks, i))}
  {
    hide Blocks, Slot, FreeBag, UsedBag, Replaced, Coalesced, AllOk, Filed, Unfiled, Without, Shape;
    var cs, bs := s.chunks, Blocks(s.chunks);
    SizeInRange(cs, i);
    SizeInRange(cs, i + 1);
    BlocksWithout(cs, i + 1);
    WithoutShape(cs, i + 1);
    var merged := BlockOf(cs[i], cs[i + 2]);
    MergedOk(merged);
    AllOkReplaced(bs, i, 2, [merged]);
    CoalescedReplaced(bs, i, 2, [merged]);
    AbsorbedFiled(bs, i, merged, s.buckets);
    NextUsed(cs, i + 1);
    UsedDiffers(bs, i, 2, [merged]);
    AbsorbedUsed(bs, i, merged);
  }

  lemma WithoutShape(cs: seq<Chunk>, i: nat)
    requires Shape(cs) && 0 < i < |cs| - 1
    ensures Shape(Without(cs, i)) && Without(cs, i)[..i] == cs[..i] && Without(cs, i)[i] == cs[i + 1]
    ensures |Without(cs, i)| == |cs| - 1 && Without(cs, i)[i - 1] == cs[i - 1]
  {
  }

  lemma MergedOk(b: Block)
    requires BlockOk(b)
    ensures AllOk([b]) && Coalesced([b])
  {
  }

  /** The chunk behind a free chunk is in use. */
  lemma NextUsed(cs: seq<Chunk>, i: nat)
    requires Shape(cs) && Coalesced(Blocks(cs)) && i + 1 < |cs| && !cs[i].used
    ensures cs[i + 1].used && 0 < i && cs[i - 1].used
  {
    hide Blocks;
    BlockAt(cs, i);
    BlockAt(cs, i - 1);
    if i + 2 < |cs| {
      BlockAt(cs, i + 1);
    }
  }

  lemma TwoBlocks(bs: seq<Block>, i: nat)
    requires i + 2 <= |bs|
    ensures bs[i..i + 2] == [bs[i], bs[i + 1]]
  {
  }

  lemma AbsorbedFiled(bs: seq<Block>, i: nat, merged: Block, buckets: seq<seq<nat>>)
    requires Filed(bs, buckets) && i + 2 <= |bs| && bs[i].used && merged.used && !bs[i + 1].used
    requires bs[i + 1].size >= 0 && 0 <= Slot(bs[i + 1].size) < SLOTS
    ensures Filed(Replaced(bs, i, 2, [merged]), Unfiled(buckets, Slot(bs[i + 1].size), bs[i + 1].at))
  {
    hide FreeBag, Slot, Replaced, Unfiled, Filed;
    FiledCount(bs, buckets);
    TwoBlocks(bs, i);
    var buckets' := Unfiled(buckets, Slot(bs[i + 1].size), bs[i + 1].at);
    forall n | 0 <= n < SLOTS
      ensures multiset(buckets'[n]) + FreeBag(bs[i..i + 2], n) == multiset(buckets[n]) + FreeBag([merged], n)
    {
      BagOfTwo(bs[i], bs[i + 1], n);
      BagOfOne(merged, n);
      UnfiledBag(bs, i + 1, buckets, n);
    }
    FiledReplaced(bs, i, 2, [merged], buckets, buckets');
  }

  lemma AbsorbedUsed(bs: seq<Block>, i: nat, merged: Block)
    requires i + 2 <= |bs| && bs[i].used && merged.used && !bs[i + 1].used
    ensures UsedBag(bs[i..i + 2]) == multiset{(bs[i].at, bs[i].size)}
    ensures UsedBag([merged]) == multiset{(merged.at, merged.size)}
  {
    hide UsedBag;
    TwoBlocks(bs, i);
    BagOfTwo(bs[i], bs[i + 1], 0);
    BagOfOne(merged, 0);
  }

  lemma {:induction false} FreeKeeps(s: State, i: nat)
    requires Valid(s) && 0 < i < |s.chunks| - 1 && s.chunks[i].used && s.chunks[i + 1].used
    ensures var s' := FreeInto(s, i);
            && Valid(s')
            && UsedBag(Blocks(s'.chunks)) + multiset{(s.chunks[i].at, SizeAt(s.chunks, i))} == UsedBag(Blocks(s.chunks))
  {
    hide Valid, UsedBag, Blocks, FreeInto;
    if s.chunks[i - 1].used {
      FreeAlone(s, i);
    } else {
      FreeMerged(s, i);
    }
  }

  lemma {:induction false} FreeAlone(s: State, i: nat)
    requires Valid(s) && 0 < i < |s.chunks| - 1 && s.chunks[i].used && s.chunks[i + 1].used && s.chunks[i - 1].used
    ensures var s' := FreeInto(s, i);
            && Valid(s')
            && UsedBag(Blocks(s'.chunks)) + multiset{(s.chunks[i].at, SizeAt(s.chunks, i))} == UsedBag(Blocks(s.chunks))
  {
    hide Blocks, Slot, FreeBag, UsedBag, Replaced, Coalesced, AllOk, Filed, Pushed, Marked, Shape;
    var cs, bs := s.chunks, Blocks(s.chunks);
    SizeInRange(cs, i);
    var b := bs[i];
    var free := b.(used := false);
    BlocksMarked(cs, i, false);
    MarkedShape(cs, i);
    MergedOk(free);
    UsedAround(cs, i);
    AllOkReplaced(bs, i, 1, [free]);
    CoalescedReplaced(bs, i, 1, [free]);
    FreedFiled(bs, i, s.buckets);
    UsedDiffers(bs, i, 1, [free]);
    BagOfOne(b, 0);
    BagOfOne(free, 0);
    assert bs[i..i + 1] == [b];
    NothingLeft(UsedBag(Blocks(Marked(cs, i, false))), multiset{(b.at, b.size)}, UsedBag(bs));
  }

  lemma NothingLeft<T>(a: multiset<T>, b: multiset<T>, c: multiset<T>)
    requires a + b == c + multiset{}
    ensures a + b == c
  {
  }

  lemma MarkedShape(cs: seq<Chunk>, i: nat)
    requires Shape(cs) && 0 < i < |cs| - 1
    ensures Shape(Marked(cs, i, false))
  {
  }

  lemma UsedAround(cs: seq<Chunk>, i: nat)
    requires 0 < i < |cs| - 1 && cs[i + 1].used
    ensures i + 1 == |Blocks(cs)| || Blocks(cs)[i + 1].used
    ensures Blocks(cs)[i - 1].used == cs[i - 1].used
  {
    hide Blocks;
    BlockAt(cs, i - 1);
    if i + 1 < |Blocks(cs)| {
      BlockAt(cs, i + 1);
    }
  }

  lemma FreedFiled(bs: seq<Block>, i: nat, buckets: seq<seq<nat>>)
    requires Filed(bs, buckets) && i < |bs| && bs[i].used && bs[i].size >= 0 && 0 <= Slot(bs[i].size) < SLOTS
    ensures Filed(Replaced(bs, i, 1, [bs[i].(used := false)]), Pushed(buckets, Slot(bs[i].size), bs[i].at))
  {
    hide FreeBag, Slot, Replaced, Pushed, Filed;
    FiledCount(bs, buckets);
    var b, free := bs[i], bs[i].(used := false);
    var buckets' := Pushed(buckets, Slot(b.size), b.at);
    assert bs[i..i + 1] == [b];
    forall n | 0 <= n < SLOTS
      ensures multiset(buckets'[n]) + FreeBag(bs[i..i + 1], n) == multiset(buckets[n]) + FreeBag([free], n)
    {
      BagOfOne(b, n);
      BagOfOne(free, n);
      PushedBag(buckets, free, n);
    }
    FiledReplaced(bs, i, 1, [free], buckets, buckets');
  }

  lemma {:induction false} FreeMerged(s: State, i: nat)
    requires Valid(s) && 0 < i < |s.chunks| - 1 && s.chunks[i].used && s.chunks[i + 1].used && !s.chunks[i - 1].used
    ensures var s' := FreeInto(s, i);
            && Valid(s')
            && UsedBag(Blocks(s'.chunks)) + multiset{(s.chunks[i].at, SizeAt(s.chunks, i))} == UsedBag(Blocks(s.chunks))
  {
    hide Blocks, UsedBag, Coalesced, AllOk, Filed, Pushed, Unfiled, Without, Shape, Slot;
    MergedValid(s, i);
    MergedUsed(s.chunks, i);
  }

  lemma {:induction false} MergedValid(s: State, i: nat)
    requires Valid(s) && 0 < i < |s.chunks| - 1 && s.chunks[i].used && s.chunks[i + 1].used && !s.chunks[i - 1].used
    ensures Valid(FreeInto(s, i))
  {
    hide Blocks, Slot, FreeBag, Replaced, Coalesced, AllOk, Filed, Pushed, Unfiled, Without, Shape;
    var cs, bs := s.chunks, Blocks(s.chunks);
    SizeInRange(cs, i);
    SizeInRange(cs, i - 1);
    BlocksWithout(cs, i);
    WithoutShape(cs, i);
    var merged := BlockOf(cs[i - 1], cs[i + 1]);
    MergedOk(merged);
    UsedAround(cs, i);
    NextUsed(cs, i - 1);
    FrontUsed(cs, i - 1);
    AllOkReplaced(bs, i - 1, 2, [merged]);
    CoalescedReplaced(bs, i - 1, 2, [merged]);
    SizeInRange(Without(cs, i), i - 1);
    MergedFiled(bs, i - 1, merged, s.buckets);
  }

  lemma {:induction false} MergedUsed(cs: seq<Chunk>, i: nat)
    requires 0 < i < |cs| - 1 && cs[i].used && !cs[i - 1].used
    ensures UsedBag(Blocks(Without(cs, i))) + multiset{(cs[i].at, SizeAt(cs, i))} == UsedBag(Blocks(cs))
  {
    hide Blocks, UsedBag, FreeBag, Replaced, Without;
    var bs, merged := Blocks(cs), BlockOf(cs[i - 1], cs[i + 1]);
    BlockAt(cs, i - 1);
    BlockAt(cs, i);
    BlocksWithout(cs, i);
    UsedDiffers(bs, i - 1, 2, [merged]);
    BagOfTwo(bs[i - 1], bs[i], 0);
    BagOfOne(merged, 0);
    TwoBlocks(bs, i - 1);
    NothingLeft(UsedBag(Blocks(Without(cs, i))), multiset{(bs[i].at, bs[i].size)}, UsedBag(bs));
  }

  lemma FrontUsed(cs: seq<Chunk>, i: nat)
    requires 0 < i < |cs| - 1 && cs[i - 1].used
    ensures Blocks(cs)[i - 1].used
  {
    hide Blocks;
    BlockAt(cs, i - 1);
  }

  lemma MergedFiled(bs: seq<Block>, i: nat, merged: Block, buckets: seq<seq<nat>>)
    requires Filed(bs, buckets) && i + 2 <= |bs| && !bs[i].used && bs[i + 1].used
    requires !merged.used && merged.at == bs[i].at
    requires bs[i].size >= 0 && 0 <= Slot(bs[i].size) < SLOTS && merged.size >= 0 && 0 <= Slot(merged.size) < SLOTS
    ensures Filed(Replaced(bs, i, 2, [merged]),
                  Pushed(Unfiled(buckets, Slot(bs[i].size), bs[i].at), Slot(merged.size), merged.at))
  {
    hide FreeBag, Slot, Replaced, Unfiled, Pushed, Filed;
    FiledCount(bs, buckets);
    TwoBlocks(bs, i);
    var unfiled := Unfiled(buckets, Slot(bs[i].size), bs[i].at);
    var buckets' := Pushed(unfiled, Slot(merged.size), merged.at);
    forall n | 0 <= n < SLOTS
      ensures multiset(buckets'[n]) + FreeBag(bs[i..i + 2], n) == multiset(buckets[n]) + FreeBag([merged], n)
    {
      BagOfTwo(bs[i], bs[i + 1], n);
      BagOfOne(merged, n);
      UnfiledBag(bs, i, buckets, n);
      PushedBag(unfiled, merged, n);
    }
    FiledReplaced(bs, i, 2, [merged], buckets, buckets');
  }

  /** Freeing keeps the heap valid, and exactly the freed block is no longer in use. */
  lemma {:induction false} ReleaseKeeps(s: State, i: nat)
    requires Valid(s) && 0 < i < |s.chunks| - 1 && s.chunks[i].used && s.chunks[|s.chunks| - 1].used
    ensures Valid(Release(s, i))
    ensures UsedBag(Blocks(Release(s, i).chunks)) + multiset{(s.chunks[i].at, SizeAt(s.chunks, i))}
      == UsedBag(Blocks(s.chunks))
  {
    hide Valid, UsedBag, Blocks, FreeInto, AbsorbNext;
    Sentinels(s);
    var s1 := AbsorbNext(s, i);
    AbsorbKeeps(s, i);
    assert s1.chunks[..i + 1][i] == s.chunks[..i + 1][i];
    FreeKeeps(s1, i);
    Exchange(UsedBag(Blocks(Release(s, i).chunks)), UsedBag(Blocks(s1.chunks)), UsedBag(Blocks(s.chunks)),
             multiset{(s.chunks[i].at, SizeAt(s.chunks, i))}, multiset{(s.chunks[i].at, SizeAt(s1.chunks, i))});
  }

  lemma Exchange<T>(a: multiset<T>, b: multiset<T>, c: multiset<T>, x: multiset<T>, y: multiset<T>)
    requires a + y == b && b + x == c + y
    ensures a + x == c
  {
    assert (a + x) + y == c + y;
    Cancel(a + x, c, y);
  }
}
