/**
  * What a caller of the kernel heap can count on, in numbers: which requests are
  * met, by which block, how long it is, and what becomes of the rest.
  */
module HeapFit {
  import opened Machine
  import opened Arith
  import opened HeapModel
  import opened HeapOps
  import opened HeapRuns

  // ---------- sizes ----------

  /** A request becomes the least multiple of four that is not below it nor below 16; the last three wrap around. */
  lemma RoundedLeast(size: nat, r: nat)
    requires size < TWO64
    ensures Rounded(size) % 4 == 0 && Rounded(size) >= 16
    ensures size <= 0xFFFF_FFFF_FFFF_FFFC ==> Rounded(size) >= size
    ensures size <= 0xFFFF_FFFF_FFFF_FFFC && r % 4 == 0 && r >= 16 && r >= size ==> Rounded(size) <= r
    ensures size > 0xFFFF_FFFF_FFFF_FFFC ==> Rounded(size) == 16
  {
  }

  /** The least power of two, by its exponent, that is not below a number. */
  predicate LeastPower(n: nat, k: nat) {
    n <= Pow2(k) && (k > 0 ==> Pow2(k - 1) < n)
  }

  lemma {:induction false} PowersApart(k: nat, n: nat)
    requires Pow2(k) < Pow2(n)
    ensures k < n
  {
    if n <= k {
      Pow2Grows(n, k);
    }
  }

  lemma FirstSlotIsLeast(size: nat, k: nat)
    requires LeastPower(Rounded(size), k)
    ensures FirstSlot(size) == k
  {
    hide Slot, Rounded;
    var r := Rounded(size);
    SlotBounds(r - 1);
    var n := Slot(r - 1);
    assert Pow2(n) < r <= Pow2(n + 1);
    PowersApart(n, k);
    if k > 0 {
      PowersApart(k - 1, n + 1);
    }
  }

  // ---------- which requests are met ----------

  /**
    * A request is refused exactly when no free block reaches the least power of two
    * that is not below its size, even if a free block is as large as the request.
    */
  lemma RefusedExactly(s: State, size: nat, k: nat)
    requires Valid(s) && LeastPower(Rounded(size), k)
    ensures Allocate(s, size).1.None? <==>
      forall i :: 0 <= i < |Blocks(s.chunks)| && !Blocks(s.chunks)[i].used ==> Blocks(s.chunks)[i].size < Pow2(k)
  {
    hide Blocks, Slot, Rounded, Valid, Allocate, Choice, UsedBag, FirstSlot;
    FirstSlotIsLeast(size, k);
    RefusedBelow(s, size);
    AllocateKeeps(s, size);
  }

  /** A free block of any power of two that is not below the request is enough. */
  lemma PowerIsEnough(s: State, size: nat, i: nat, k: nat)
    requires Valid(s) && i < |Blocks(s.chunks)| && !Blocks(s.chunks)[i].used
    requires Rounded(size) <= Pow2(k) <= Blocks(s.chunks)[i].size
    ensures Allocate(s, size).1.Some?
  {
    hide Blocks, Slot, Rounded, Valid, Allocate, Choice, UsedBag, FirstSlot;
    RefusedBelow(s, size);
    AllocateKeeps(s, size);
    ClassBelow(size, k);
    Pow2Grows(FirstSlot(size), k);
  }

  lemma ClassBelow(size: nat, k: nat)
    requires Rounded(size) <= Pow2(k)
    ensures 0 <= FirstSlot(size) <= k
  {
    hide Slot, Rounded;
    SlotBounds(Rounded(size) - 1);
    PowersApart(Slot(Rounded(size) - 1), k);
  }

  /** The block that is taken is less than twice as long as any free block that reaches that power. */
  lemma LessThanTwice(s: State, size: nat, i: nat, j: nat, k: nat)
    requires Valid(s) && LeastPower(Rounded(size), k)
    requires i < |Blocks(s.chunks)| && !Blocks(s.chunks)[i].used && Blocks(s.chunks)[i].size >= Pow2(k)
    requires j < |Blocks(s.chunks)| && Allocate(s, size).1 == Some(Blocks(s.chunks)[j].at + HEADER)
    ensures Blocks(s.chunks)[j].size < 2 * Blocks(s.chunks)[i].size
  {
    hide Blocks, Slot, Rounded, Coalesced, FreeBag, Carved, UsedBag, FirstSlot;
    var bs := Blocks(s.chunks);
    FirstSlotIsLeast(size, k);
    Chosen(s, size);
    var (l, c) := Choice(s, size).value;
    SizeInRange(s.chunks, i);
    SizeInRange(s.chunks, j);
    SizeInRange(s.chunks, c);
    IndexUnique(s.chunks, j);
    IndexUnique(s.chunks, c);
    FreeInBag(bs, i);
    SlotBounds(bs[i].size);
    SlotBounds(bs[j].size);
    if Slot(bs[i].size) < k {
      Pow2Grows(Slot(bs[i].size) + 1, k);
    }
    assert bs[i].at in multiset(s.buckets[Slot(bs[i].size)]);
    assert l <= Slot(bs[i].size);
    Pow2Grows(l, Slot(bs[i].size));
  }

  // ---------- what a request does to the blocks ----------

  /**
    * A free block gives its front to the request, behind the same header.  What is left
    * becomes a free block behind it if it has room for a header and 16 bytes, and stays
    * part of the block otherwise; no other block changes.
    */
  lemma FrontIsTaken(s: State, size: nat) returns (i: nat)
    requires Valid(s) && Allocate(s, size).1.Some?
    ensures var bs, bs', r := Blocks(s.chunks), Blocks(Allocate(s, size).0.chunks), Rounded(size);
            && i < |bs| && !bs[i].used && bs[i].size >= r
            && Allocate(s, size).1 == Some(bs[i].at + 24)
            && (bs[i].size >= r + 40 ==>
                  bs' == bs[..i] + [Block(bs[i].at, r, true), Block(bs[i].at + 24 + r, bs[i].size - r - 24, false)]
                         + bs[i + 1..])
            && (bs[i].size < r + 40 ==> bs' == bs[..i] + [Block(bs[i].at, bs[i].size, true)] + bs[i + 1..])
  {
    hide Blocks, Slot, Rounded, Coalesced, Filed, FirstSlot, Carved;
    Chosen(s, size);
    var (k, c) := Choice(s, size).value;
    i := c;
    CarvedBlocks(State(s.chunks, s.buckets[k := s.buckets[k][1..]]), i, Rounded(size));
  }

  // ---------- what is freed last is given out first ----------

  /** The chunk at `at` is free and the first of the list of its size class. */
  predicate FirstOfList(s: State, at: nat) {
    var j := IndexOf(s.chunks, at);
    && 0 < j < |s.chunks| - 1 && !s.chunks[j].used
    && 0 <= SlotAt(s.chunks, j) < |s.buckets|
    && s.buckets[SlotAt(s.chunks, j)] != [] && s.buckets[SlotAt(s.chunks, j)][0] == at
  }

  /** Where the block is that a freed chunk becomes part of. */
  function Joined(s: State, i: nat): nat
    requires 0 < i < |s.chunks|
  {
    if s.chunks[i - 1].used then s.chunks[i].at else s.chunks[i - 1].at
  }

  lemma FirstWhenFiled(s: State, j: nat)
    requires Valid(s) && 0 < j < |s.chunks| - 1 && !s.chunks[j].used
    requires 0 <= SlotAt(s.chunks, j) < |s.buckets| && s.buckets[SlotAt(s.chunks, j)] != []
    requires s.buckets[SlotAt(s.chunks, j)][0] == s.chunks[j].at
    ensures FirstOfList(s, s.chunks[j].at)
  {
    hide Blocks, Slot, SlotAt, Coalesced, Filed;
    IndexUnique(s.chunks, j);
  }

  lemma FiledFirst(s: State, i: nat)
    requires 0 < i < |s.chunks| - 1 && Valid(FreeInto(s, i))
    ensures FirstOfList(FreeInto(s, i), Joined(s, i))
  {
    hide Blocks, Slot, Coalesced, Unfiled;
    var s', j := FreeInto(s, i), if s.chunks[i - 1].used then i else i - 1;
    SizeInRange(s'.chunks, j);
    hide Filed, AllOk, Shape;
    if s.chunks[i - 1].used {
      assert SlotAt(s'.chunks, i) == SlotAt(s.chunks, i);
    }
    hide FreeInto;
    FirstWhenFiled(s', j);
  }

  /** A chunk that was just freed, joined with its neighbours, is the first of its list. */
  lemma FreedIsFirst(s: State, i: nat)
    requires Valid(s) && 0 < i < |s.chunks| - 1 && s.chunks[i].used && s.chunks[|s.chunks| - 1].used
    ensures FirstOfList(Release(s, i), Joined(s, i))
  {
    hide Blocks, Slot, UsedBag, Valid, AbsorbNext, FreeInto, FirstOfList;
    var s1 := AbsorbNext(s, i);
    Sentinels(s);
    AbsorbKeeps(s, i);
    ReleaseKeeps(s, i);
    assert s1.chunks[..i + 1][i] == s.chunks[..i + 1][i] && s1.chunks[..i + 1][i - 1] == s.chunks[..i + 1][i - 1];
    FiledFirst(s1, i);
  }

  /** Of all chunks of its size class, the one that was freed last is the next to be given out. */
  lemma FreedIsNext(s: State, i: nat, size: nat, j: nat)
    requires Valid(s) && 0 < i < |s.chunks| - 1 && s.chunks[i].used && s.chunks[|s.chunks| - 1].used
    requires var s' := Release(s, i);
             && 0 < j < |s'.chunks| - 1 && Allocate(s', size).1 == Some(s'.chunks[j].at + HEADER)
             && IndexOf(s'.chunks, Joined(s, i)) + 1 < |s'.chunks|
             && SlotAt(s'.chunks, j) == SlotAt(s'.chunks, IndexOf(s'.chunks, Joined(s, i)))
    ensures Release(s, i).chunks[j].at == Joined(s, i)
  {
    hide Blocks, Slot, UsedBag, Coalesced, Release, Carved, FirstSlot, Filed, Joined;
    var s' := Release(s, i);
    FreedIsFirst(s, i);
    ReleaseKeeps(s, i);
    Chosen(s', size);
    var (k, c) := Choice(s', size).value;
    IndexUnique(s'.chunks, c);
    IndexUnique(s'.chunks, j);
  }

  // ---------- numbers ----------

  /** The memory that the heap starts with: the multiples of four nearest to its ends, on the inside. */
  lemma AlignedInside(a: nat, x: nat)
    requires x % 4 == 0
    ensures AlignUp(a) % 4 == 0 && AlignDown(a) % 4 == 0 && AlignDown(a) <= a <= AlignUp(a)
    ensures x >= a ==> AlignUp(a) <= x
    ensures x <= a ==> x <= AlignDown(a)
  {
  }
}
