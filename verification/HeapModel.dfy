/**
  * The kernel heap: chunks tile a stretch of memory, and the free ones are kept in
  * lists by size class.  The chunks are given in the order of the ring that links
  * them all, from the first sentinel to the last; a chunk's size is the distance to
  * the next one.
  */
module HeapModel {
  import opened Machine
  import opened Arith
  import opened Seqs

  const HEADER := 24
  const CHUNK := 40
  const MIN_SIZE := 16
  const SLOTS := 32

  datatype Chunk = Chunk(at: nat, used: bool)

  datatype State = State(chunks: seq<Chunk>, buckets: seq<seq<nat>>)

  // ---------- size classes ----------

  /** The size class: the number of the highest bit. */
  function Slot(size: nat): int {
    if size == 0 then -1 else 1 + Slot(size / 2)
  }

  lemma {:induction false} SlotBounds(size: nat)
    requires size > 0
    ensures Slot(size) >= 0 && Pow2(Slot(size)) <= size < 2 * Pow2(Slot(size))
  {
    if size > 1 {
      SlotBounds(size / 2);
    }
  }

  lemma {:induction false} SlotBelow(size: nat, k: nat)
    requires size < Pow2(k)
    ensures Slot(size) < k
  {
    if size > 0 {
      SlotBelow(size / 2, k - 1);
    }
  }

  lemma SlotInRange(size: nat)
    requires 0 < size < TWO32
    ensures 0 <= Slot(size) < SLOTS
  {
    SlotBounds(size);
    Pow2Values();
    SlotBelow(size, 32);
  }

  // ---------- blocks ----------

  /** A chunk with its size. */
  datatype Block = Block(at: nat, size: int, used: bool)

  function BlockOf(c: Chunk, next: Chunk): Block {
    Block(c.at, next.at - c.at - HEADER, c.used)
  }

  /** The chunks with their sizes; the last sentinel has none. */
  function Blocks(cs: seq<Chunk>): (bs: seq<Block>)
    ensures |bs| == if cs == [] then 0 else |cs| - 1
  {
    if |cs| < 2 then [] else [BlockOf(cs[0], cs[1])] + Blocks(cs[1..])
  }

  lemma {:induction false} BlockAt(cs: seq<Chunk>, i: nat)
    requires i + 1 < |cs|
    ensures Blocks(cs)[i] == BlockOf(cs[i], cs[i + 1])
  {
    if i > 0 {
      BlockAt(cs[1..], i - 1);
    }
  }

  /** The addresses of the free blocks of a size class. */
  function FreeBag(bs: seq<Block>, n: int): multiset<nat> {
    if bs == [] then multiset{} else FreeOne(bs[0], n) + FreeBag(bs[1..], n)
  }

  function FreeOne(b: Block, n: int): multiset<nat> {
    if !b.used && b.size >= 0 && Slot(b.size) == n then multiset{b.at} else multiset{}
  }

  /** The blocks in use. */
  function UsedBag(bs: seq<Block>): multiset<(nat, int)> {
    if bs == [] then multiset{} else UsedOne(bs[0]) + UsedBag(bs[1..])
  }

  function UsedOne(b: Block): multiset<(nat, int)> {
    if b.used then multiset{(b.at, b.size)} else multiset{}
  }

  lemma {:induction false} BagsConcat(a: seq<Block>, b: seq<Block>, n: int)
    ensures FreeBag(a + b, n) == FreeBag(a, n) + FreeBag(b, n)
    ensures UsedBag(a + b) == UsedBag(a) + UsedBag(b)
  {
    if a == [] {
      assert a + b == b;
    } else {
      TailOfConcat(a, b);
      BagsConcat(a[1..], b, n);
    }
  }

  // ---------- the invariant ----------

  predicate BlockOk(b: Block) {
    b.size >= MIN_SIZE && b.at % 4 == 0
  }

  predicate AllOk(bs: seq<Block>) {
    forall i :: 0 <= i < |bs| ==> BlockOk(bs[i])
  }

  /** No two free blocks are neighbours. */
  ghost predicate Coalesced(bs: seq<Block>) {
    forall i, j :: 0 <= i && j == i + 1 && j < |bs| ==> bs[i].used || bs[j].used
  }

  predicate Shape(cs: seq<Chunk>) {
    && |cs| >= 2 && cs[0].used && cs[|cs| - 1].used
    && cs[|cs| - 1].at % 4 == 0 && cs[|cs| - 1].at - cs[0].at < TWO32
  }

  /** Every free block is in the list of its size class, once, and the lists hold nothing else. */
  ghost predicate Filed(bs: seq<Block>, buckets: seq<seq<nat>>) {
    && |buckets| == SLOTS
    && forall n :: 0 <= n < SLOTS ==> multiset(buckets[n]) == FreeBag(bs, n)
  }

  ghost predicate Valid(s: State) {
    && Shape(s.chunks)
    && AllOk(Blocks(s.chunks)) && Coalesced(Blocks(s.chunks))
    && Filed(Blocks(s.chunks), s.buckets)
  }

  // ---------- what changes of the chunks do to the blocks ----------

  function Marked(cs: seq<Chunk>, i: nat, used: bool): (cs': seq<Chunk>)
    requires i < |cs|
    ensures |cs'| == |cs|
  {
    cs[i := Chunk(cs[i].at, used)]
  }

  /** A chunk put in behind chunk `i`. */
  function Inserted(cs: seq<Chunk>, i: nat, c: Chunk): (cs': seq<Chunk>)
    requires i < |cs|
    ensures |cs'| == |cs| + 1
  {
    cs[..i + 1] + [c] + cs[i + 1..]
  }

  /** A block replaced by others. */
  function Replaced(bs: seq<Block>, i: nat, n: nat, repl: seq<Block>): seq<Block>
    requires i + n <= |bs|
  {
    bs[..i] + repl + bs[i + n..]
  }

  lemma ReplacedCons(b: Block, rest: seq<Block>, i: nat, n: nat, repl: seq<Block>)
    requires i + n <= |rest|
    ensures Replaced([b] + rest, i + 1, n, repl) == [b] + Replaced(rest, i, n, repl)
  {
  }

  lemma ReplacedHead(front: seq<Block>, rest: seq<Block>, repl: seq<Block>)
    ensures Replaced(front + rest, 0, |front|, repl) == repl + rest
  {
  }

  lemma BlocksCons(c: Chunk, cs: seq<Chunk>)
    requires cs != []
    ensures Blocks([c] + cs) == [BlockOf(c, cs[0])] + Blocks(cs)
  {
    assert ([c] + cs)[1..] == cs;
  }

  lemma {:induction false} BlocksMarked(cs: seq<Chunk>, i: nat, used: bool)
    requires i + 1 < |cs|
    ensures Blocks(Marked(cs, i, used)) == Replaced(Blocks(cs), i, 1, [Blocks(cs)[i].(used := used)])
  {
    hide Blocks, Replaced;
    var c, rest := cs[0], cs[1..];
    HeadTail(cs);
    BlocksCons(c, rest);
    if i == 0 {
      assert Marked(cs, 0, used) == [Chunk(c.at, used)] + rest;
      BlocksCons(Chunk(c.at, used), rest);
      ReplacedHead([BlockOf(c, rest[0])], Blocks(rest), [BlockOf(c, rest[0]).(used := used)]);
    } else {
      assert Marked(cs, i, used) == [c] + Marked(rest, i - 1, used);
      BlocksMarked(rest, i - 1, used);
      BlocksCons(c, Marked(rest, i - 1, used));
      ReplacedCons(BlockOf(c, rest[0]), Blocks(rest), i - 1, 1, [Blocks(rest)[i - 1].(used := used)]);
    }
  }

  lemma {:induction false} BlocksInserted(cs: seq<Chunk>, i: nat, x: Chunk)
    requires i + 1 < |cs|
    ensures Blocks(Inserted(cs, i, x)) == Replaced(Blocks(cs), i, 1, [BlockOf(cs[i], x), BlockOf(x, cs[i + 1])])
  {
    hide Blocks, Replaced;
    var c, rest := cs[0], cs[1..];
    HeadTail(cs);
    BlocksCons(c, rest);
    var repl := [BlockOf(cs[i], x), BlockOf(x, cs[i + 1])];
    if i == 0 {
      assert Inserted(cs, 0, x) == [c] + ([x] + rest);
      BlocksCons(c, [x] + rest);
      BlocksCons(x, rest);
      ReplacedHead([BlockOf(c, rest[0])], Blocks(rest), repl);
      assert repl == [BlockOf(c, x)] + [BlockOf(x, rest[0])];
      Assoc([BlockOf(c, x)], [BlockOf(x, rest[0])], Blocks(rest));
    } else {
      assert Inserted(cs, i, x) == [c] + Inserted(rest, i - 1, x);
      BlocksInserted(rest, i - 1, x);
      BlocksCons(c, Inserted(rest, i - 1, x));
      ReplacedCons(BlockOf(c, rest[0]), Blocks(rest), i - 1, 1, repl);
    }
  }

  lemma {:induction false} BlocksWithout(cs: seq<Chunk>, i: nat)
    requires 0 < i < |cs| - 1
    ensures Blocks(Without(cs, i)) == Replaced(Blocks(cs), i - 1, 2, [BlockOf(cs[i - 1], cs[i + 1])])
  {
    hide Blocks, Replaced;
    var c, rest := cs[0], cs[1..];
    HeadTail(cs);
    BlocksCons(c, rest);
    var repl := [BlockOf(cs[i - 1], cs[i + 1])];
    if i == 1 {
      var d, rest' := cs[1], cs[2..];
      assert rest == [d] + rest';
      BlocksCons(d, rest');
      assert Without(cs, 1) == [c] + rest';
      BlocksCons(c, rest');
      Assoc([BlockOf(c, d)], [BlockOf(d, rest'[0])], Blocks(rest'));
      ReplacedHead([BlockOf(c, d)] + [BlockOf(d, rest'[0])], Blocks(rest'), repl);
    } else {
      assert Without(cs, i) == [c] + Without(rest, i - 1);
      BlocksWithout(rest, i - 1);
      BlocksCons(c, Without(rest, i - 1));
      ReplacedCons(BlockOf(c, rest[0]), Blocks(rest), i - 2, 2, repl);
    }
  }

  // ---------- what changes of the blocks keep ----------

  lemma BagsReplaced(bs: seq<Block>, i: nat, n: nat, repl: seq<Block>, slot: int)
    requires i + n <= |bs|
    ensures FreeBag(Replaced(bs, i, n, repl), slot)
      == FreeBag(bs[..i], slot) + FreeBag(repl, slot) + FreeBag(bs[i + n..], slot)
    ensures UsedBag(Replaced(bs, i, n, repl)) == UsedBag(bs[..i]) + UsedBag(repl) + UsedBag(bs[i + n..])
  {
    hide FreeBag, UsedBag;
    BagsConcat(bs[..i] + repl, bs[i + n..], slot);
    BagsConcat(bs[..i], repl, slot);
  }

  lemma SelfReplaced(bs: seq<Block>, i: nat, n: nat)
    requires i + n <= |bs|
    ensures bs == Replaced(bs, i, n, bs[i..i + n])
  {
  }

  /** What replacing some blocks by others does to the bags. */
  lemma BagsDiffer(bs: seq<Block>, i: nat, n: nat, repl: seq<Block>, slot: int)
    requires i + n <= |bs|
    ensures FreeBag(Replaced(bs, i, n, repl), slot) + FreeBag(bs[i..i + n], slot)
      == FreeBag(bs, slot) + FreeBag(repl, slot)
    ensures UsedBag(Replaced(bs, i, n, repl)) + UsedBag(bs[i..i + n]) == UsedBag(bs) + UsedBag(repl)
  {
    hide FreeBag, UsedBag, Replaced;
    SelfReplaced(bs, i, n);
    BagsReplaced(bs, i, n, repl, slot);
    BagsReplaced(bs, i, n, bs[i..i + n], slot);
  }

  lemma AllOkReplaced(bs: seq<Block>, i: nat, n: nat, repl: seq<Block>)
    requires i + n <= |bs| && AllOk(bs) && AllOk(repl)
    ensures AllOk(Replaced(bs, i, n, repl))
  {
  }

  lemma CoalescedReplaced(bs: seq<Block>, i: nat, n: nat, repl: seq<Block>)
    requires i + n <= |bs| && repl != [] && Coalesced(bs) && Coalesced(repl)
    requires i == 0 || bs[i - 1].used || repl[0].used
    requires i + n == |bs| || bs[i + n].used || repl[|repl| - 1].used
    ensures Coalesced(Replaced(bs, i, n, repl))
  {
    var all := Replaced(bs, i, n, repl);
    forall k, l | 0 <= k && l == k + 1 && l < |all| ensures all[k].used || all[l].used {
      if l < i {
        assert all[k] == bs[k] && all[l] == bs[l];
      } else if k >= i + |repl| {
        var d := n - |repl|;
        assert all[k] == bs[k + d] && all[l] == bs[l + d];
      } else if i <= k && l < i + |repl| {
        assert all[k] == repl[k - i] && all[l] == repl[l - i];
      }
    }
  }

  lemma FiledReplaced(bs: seq<Block>, i: nat, n: nat, repl: seq<Block>, buckets: seq<seq<nat>>, buckets': seq<seq<nat>>)
    requires i + n <= |bs| && Filed(bs, buckets) && |buckets'| == SLOTS
    requires forall k :: 0 <= k < SLOTS ==>
      multiset(buckets'[k]) + FreeBag(bs[i..i + n], k) == multiset(buckets[k]) + FreeBag(repl, k)
    ensures Filed(Replaced(bs, i, n, repl), buckets')
  {
    hide FreeBag, Replaced;
    forall k | 0 <= k < SLOTS ensures multiset(buckets'[k]) == FreeBag(Replaced(bs, i, n, repl), k) {
      BagsDiffer(bs, i, n, repl, k);
      Cancel(multiset(buckets'[k]), FreeBag(Replaced(bs, i, n, repl), k), FreeBag(bs[i..i + n], k));
    }
  }

  lemma Cancel<T>(a: multiset<T>, b: multiset<T>, c: multiset<T>)
    requires a + c == b + c
    ensures a == b
  {
    assert (a + c) - c == a;
    assert (b + c) - c == b;
  }

  // ---------- the order of chunks ----------

  lemma {:induction false} Ordered(cs: seq<Chunk>, i: nat, j: nat)
    requires i < j < |cs| && AllOk(Blocks(cs))
    ensures cs[i].at + CHUNK <= cs[j].at
    decreases j - i
  {
    BlockAt(cs, j - 1);
    assert BlockOk(Blocks(cs)[j - 1]);
    if i < j - 1 {
      Ordered(cs, i, j - 1);
    }
  }

  function SizeAt(cs: seq<Chunk>, i: nat): int
    requires i + 1 < |cs|
  {
    cs[i + 1].at - cs[i].at - HEADER
  }

  /** Sizes have a size class. */
  lemma {:induction false} SizeInRange(cs: seq<Chunk>, i: nat)
    requires i + 1 < |cs| && Shape(cs) && AllOk(Blocks(cs))
    ensures MIN_SIZE <= SizeAt(cs, i) < TWO32 && cs[i].at % 4 == 0 && 0 <= Slot(SizeAt(cs, i)) < SLOTS
    ensures Blocks(cs)[i] == Block(cs[i].at, SizeAt(cs, i), cs[i].used)
  {
    BlockAt(cs, i);
    assert BlockOk(Blocks(cs)[i]);
    if i > 0 {
      Ordered(cs, 0, i);
    }
    if i + 1 < |cs| - 1 {
      Ordered(cs, i + 1, |cs| - 1);
    }
    SlotInRange(SizeAt(cs, i));
  }

  /** Where a chunk stands in the ring. */
  function IndexOf(cs: seq<Chunk>, a: nat): (i: nat)
    ensures i <= |cs| && (i < |cs| ==> cs[i].at == a)
    ensures forall k :: 0 <= k < i ==> cs[k].at != a
  {
    if cs == [] || cs[0].at == a then 0 else 1 + IndexOf(cs[1..], a)
  }

  lemma IndexUnique(cs: seq<Chunk>, i: nat)
    requires i < |cs| && AllOk(Blocks(cs))
    ensures IndexOf(cs, cs[i].at) == i
  {
    var k := IndexOf(cs, cs[i].at);
    if k < i {
      Ordered(cs, k, i);
    }
  }

  lemma {:induction false} FindFree(bs: seq<Block>, n: int, a: nat) returns (i: nat)
    requires a in FreeBag(bs, n)
    ensures i < |bs| && bs[i].at == a && !bs[i].used && bs[i].size >= 0 && Slot(bs[i].size) == n
  {
    if a in FreeOne(bs[0], n) {
      i := 0;
    } else {
      i := FindFree(bs[1..], n, a);
      i := i + 1;
    }
  }

  lemma {:induction false} FreeInBag(bs: seq<Block>, i: nat)
    requires i < |bs| && !bs[i].used && bs[i].size >= 0
    ensures bs[i].at in FreeBag(bs, Slot(bs[i].size))
  {
    if i > 0 {
      FreeInBag(bs[1..], i - 1);
    }
  }

  // ---------- the lists of free chunks ----------

  function Pushed(buckets: seq<seq<nat>>, n: int, a: nat): (r: seq<seq<nat>>)
    ensures |r| == |buckets|
  {
    if 0 <= n < |buckets| then buckets[n := [a] + buckets[n]] else buckets
  }

  function RemoveFirst(s: seq<nat>, a: nat): seq<nat> {
    if s == [] then [] else if s[0] == a then s[1..] else [s[0]] + RemoveFirst(s[1..], a)
  }

  function Unfiled(buckets: seq<seq<nat>>, n: int, a: nat): (r: seq<seq<nat>>)
    ensures |r| == |buckets|
  {
    if 0 <= n < |buckets| then buckets[n := RemoveFirst(buckets[n], a)] else buckets
  }

  lemma {:induction false} RemoveFirstBag(s: seq<nat>, a: nat)
    requires a in multiset(s)
    ensures multiset(RemoveFirst(s, a)) + multiset{a} == multiset(s)
  {
    HeadTail(s);
    if s[0] != a {
      RemoveFirstBag(s[1..], a);
    }
  }

  lemma PushBag(s: seq<nat>, a: nat)
    ensures multiset([a] + s) == multiset(s) + multiset{a}
  {
  }
}
