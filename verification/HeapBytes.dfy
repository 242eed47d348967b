/**
  * The bytes of the kernel heap: those of the blocks, over every run, and those in
  * which the heap keeps its links, which lie between the blocks and in the free ones.
  */
module HeapBytes {
  import opened Machine
  import opened Bytes
  import opened Seqs
  import opened HeapModel
  import opened HeapOps
  import opened HeapResize
  import opened HeapRuns

  // ---------- blocks in use ----------

  lemma {:induction false} FindUsed(bs: seq<Block>, b: (nat, int)) returns (i: nat)
    requires b in UsedBag(bs)
    ensures i < |bs| && bs[i].used && b == (bs[i].at, bs[i].size)
  {
    if b in UsedOne(bs[0]) {
      i := 0;
    } else {
      i := FindUsed(bs[1..], b);
      i := i + 1;
    }
  }

  lemma {:induction false} UsedInBag(bs: seq<Block>, i: nat)
    requires i < |bs| && bs[i].used
    ensures (bs[i].at, bs[i].size) in UsedBag(bs)
  {
    if i > 0 {
      UsedInBag(bs[1..], i - 1);
    }
  }

  /** A block in use, by its place in the ring. */
  lemma UsedChunk(s: State, b: (nat, int)) returns (i: nat)
    requires Valid(s) && b in UsedBag(Blocks(s.chunks))
    ensures i < |s.chunks| - 1 && s.chunks[i].used && b == (s.chunks[i].at, SizeAt(s.chunks, i))
    ensures MIN_SIZE <= b.1
  {
    hide UsedBag, Blocks, Coalesced, Filed;
    i := FindUsed(Blocks(s.chunks), b);
    SizeInRange(s.chunks, i);
  }

  lemma UsedBlock(s: State, addr: nat)
    requires Valid(s) && Frees(s, addr)
    ensures (addr - HEADER, LengthOf(s, addr)) in UsedBag(Blocks(s.chunks))
  {
    hide UsedBag, Blocks, Coalesced, Filed;
    var i := IndexOf(s.chunks, addr - HEADER);
    SizeInRange(s.chunks, i);
    UsedInBag(Blocks(s.chunks), i);
  }

  /** Two blocks in use do not overlap, nor does one reach into the header of the other. */
  lemma BlocksApart(s: State, b: (nat, int), c: (nat, int))
    requires Valid(s) && b in UsedBag(Blocks(s.chunks)) && c in UsedBag(Blocks(s.chunks)) && b.0 != c.0
    ensures b.0 + HEADER + b.1 <= c.0 || c.0 + HEADER + c.1 <= b.0
  {
    hide UsedBag, Blocks, Valid;
    var i := UsedChunk(s, b);
    var j := UsedChunk(s, c);
    if i < j {
      Disjoint(s, i, j);
    } else {
      Disjoint(s, j, i);
    }
  }

  lemma BlockEnds(s: State, b: (nat, int))
    requires Valid(s) && b in UsedBag(Blocks(s.chunks))
    ensures b.0 + HEADER + b.1 <= s.chunks[|s.chunks| - 1].at
  {
    hide UsedBag, Blocks, Coalesced, Filed;
    var i := UsedChunk(s, b);
    if i + 1 < |s.chunks| - 1 {
      Ordered(s.chunks, i + 1, |s.chunks| - 1);
    }
  }

  /** What is allocated was not in use. */
  lemma NewBlock(s: State, size: nat, b: (nat, int))
    requires Valid(s) && Choice(s, size).Some? && b in UsedBag(Blocks(s.chunks))
    ensures Allocate(s, size).1.Some? && Allocate(s, size).1.value - HEADER != b.0
  {
    hide UsedBag, Blocks, Coalesced, Filed, Choice, Carved, Slot, Rounded;
    Chosen(s, size);
    var (_, i) := Choice(s, size).value;
    var j := UsedChunk(s, b);
    if j < i {
      Ordered(s.chunks, j, i);
    } else {
      Ordered(s.chunks, i, j);
    }
  }

  // ---------- the bytes of the blocks ----------

  ghost function Stretch(m: seq<byte>, at: nat, len: int): seq<byte> {
    if 0 <= len && at + len <= |m| then m[at..at + len] else []
  }

  /** A stretch copied to another place, as far as there is memory. */
  ghost function Copied(m: seq<byte>, p: nat, addr: nat, len: int): (m': seq<byte>)
    ensures |m'| == |m|
  {
    seq(|m|, a requires 0 <= a < |m| => if p <= a < p + len && addr + (a - p) < |m| then m[addr + (a - p)] else m[a])
  }

  lemma CopiedApart(m: seq<byte>, p: nat, addr: nat, len: int, at: nat, n: int)
    requires at + n <= p || p + len <= at
    ensures Stretch(Copied(m, p, addr, len), at, n) == Stretch(m, at, n)
  {
  }

  lemma CopiedThere(m: seq<byte>, p: nat, addr: nat, len: int)
    requires 0 <= len && p + len <= |m| && addr + len <= |m|
    ensures Stretch(Copied(m, p, addr, len), p, len) == Stretch(m, addr, len)
  {
  }

  lemma CopiedIsOverwritten(m: seq<byte>, p: nat, addr: nat, len: nat)
    requires p + len <= |m| && addr + len <= |m|
    ensures Copied(m, p, addr, len) == Overwrite(m, p, m[addr..addr + len])
  {
  }

  /** The bytes of the blocks after one call. */
  ghost function BytesAfter(s: State, op: Op, m: seq<byte>): (m': seq<byte>)
    ensures |m'| == |m|
  {
    if op.Realloc? && Frees(s, op.addr) then
      match Resized(s, op.addr, op.size)
      case Sound(_, Some(p)) => Copied(m, p, op.addr, LengthOf(s, op.addr))
      case _ => m
    else m
  }

  ghost function RunBytes(s: State, ops: seq<Op>, m: seq<byte>): (m': seq<byte>)
    ensures |m'| == |m|
    decreases |ops|
  {
    if ops == [] then m else RunBytes(Do(s, ops[0]), ops[1..], BytesAfter(s, ops[0], m))
  }

  /** A block that was moved, among the blocks in use. */
  lemma MovedInUse(s: State, addr: nat, size: nat, s': State, p: nat)
    requires Valid(s) && Frees(s, addr) && Resized(s, addr, size) == Sound(s', Some(p))
    ensures p >= HEADER && (p - HEADER, Granted(s, size)) in UsedBag(Blocks(s'.chunks))
    ensures 0 < LengthOf(s, addr) <= Granted(s, size)
    ensures forall b :: b in UsedBag(Blocks(s.chunks)) ==> b.0 != p - HEADER
    ensures forall b :: b in UsedBag(Blocks(s.chunks)) && b.0 != addr - HEADER ==> b in UsedBag(Blocks(s'.chunks))
  {
    hide UsedBag, Blocks, Valid, Frees, Allocate, Choice, Granted, CopyStaysInside, LengthOf, Freed;
    ResizeKeeps(s, addr, size);
    UsedBlock(s, addr);
    var _ := UsedChunk(s, (addr - HEADER, LengthOf(s, addr)));
    forall b | b in UsedBag(Blocks(s.chunks)) ensures b.0 != p - HEADER {
      NewBlock(s, size, b);
    }
    Swapped(UsedBag(Blocks(s'.chunks)), UsedBag(Blocks(s.chunks)),
            (addr - HEADER, LengthOf(s, addr)), (p - HEADER, Granted(s, size)));
  }

  lemma Swapped(a: multiset<(nat, int)>, b: multiset<(nat, int)>, x: (nat, int), y: (nat, int))
    requires a + multiset{x} == b + multiset{y} && x.0 != y.0
    ensures y in a
    ensures forall z :: z in b && z.0 != x.0 ==> z in a
  {
    assert (a + multiset{x})[y] == (b + multiset{y})[y];
    forall z | z in b && z.0 != x.0 ensures z in a {
      assert (a + multiset{x})[z] == (b + multiset{y})[z];
    }
  }

  /** What resizing is for: the bytes of the old block stand at the start of the new one. */
  lemma ContentsMoved(s: State, addr: nat, size: nat, m: seq<byte>, s': State, p: nat)
    requires Valid(s) && Frees(s, addr) && s.chunks[|s.chunks| - 1].at <= |m|
    requires Resized(s, addr, size) == Sound(s', Some(p))
    ensures var len, m' := LengthOf(s, addr), BytesAfter(s, Realloc(addr, size), m);
            && p >= HEADER && (p - HEADER, Granted(s, size)) in UsedBag(Blocks(s'.chunks))
            && 0 < len <= Granted(s, size)
            && addr + len <= |m| && p + len <= |m| && m'[p..p + len] == m[addr..addr + len]
  {
    hide UsedBag, Blocks, Valid, Frees, Granted, LengthOf, Resized, Copied;
    MovedInUse(s, addr, size, s', p);
    UsedBlock(s, addr);
    BlockEnds(s, (addr - HEADER, LengthOf(s, addr)));
    DoKeeps(s, Realloc(addr, size));
    BlockEnds(s', (p - HEADER, Granted(s, size)));
    CopiedThere(m, p, addr, LengthOf(s, addr));
  }

  /** What was allocated can be freed, and has the granted length. */
  lemma NewFrees(s: State, size: nat, p: nat)
    requires Valid(s) && Choice(s, size).Some? && Allocate(s, size).1 == Some(p)
    ensures p >= HEADER && Frees(Allocate(s, size).0, p) && LengthOf(Allocate(s, size).0, p) == Granted(s, size)
  {
    hide UsedBag, Blocks, Valid, Granted, Choice, Allocate, Release;
    GrantedLength(s, size);
    FreeUndoesAllocate(s, size);
  }

  /** The copy of a block that fits: both stretches lie in the heap, and reading stays ahead of writing. */
  lemma CopyReady(s: State, addr: nat, size: nat, p: nat)
    requires Valid(s) && Frees(s, addr) && Choice(s, size).Some? && Allocate(s, size).1 == Some(p)
    requires LengthOf(s, addr) <= Granted(s, size)
    ensures var len, last := LengthOf(s, addr), s.chunks[|s.chunks| - 1].at;
            0 <= len && p + len <= last && addr + len <= last && (p <= addr || addr + len <= p)
  {
    hide UsedBag, Blocks, Valid, Frees, Granted, LengthOf, Choice, Allocate;
    var s1 := Allocate(s, size).0;
    var b, c := (addr - HEADER, LengthOf(s, addr)), (p - HEADER, Granted(s, size));
    AllocateKeeps(s, size);
    AllocateEnds(s, size);
    UsedBlock(s, addr);
    NewBlock(s, size, b);
    var _ := UsedChunk(s, b);
    BlocksApart(s1, b, c);
    BlockEnds(s1, b);
    BlockEnds(s1, c);
  }

  /** A call leaves every block in use that it is not about, and its bytes. */
  lemma BlockKeptOnce(s: State, op: Op, m: seq<byte>, b: (nat, int))
    requires Valid(s) && Legal(s, op) && b in UsedBag(Blocks(s.chunks))
    requires op.Malloc? || op.addr != b.0 + HEADER
    ensures b in UsedBag(Blocks(Do(s, op).chunks))
    ensures Stretch(BytesAfter(s, op, m), b.0 + HEADER, b.1) == Stretch(m, b.0 + HEADER, b.1)
  {
    hide UsedBag, Blocks, Valid, Granted, Copied, Stretch, Release, Choice, Allocate;
    match op
    case Malloc(size) =>
      AllocateKeeps(s, size);
    case Free(addr) =>
      if Frees(s, addr) {
        var i := IndexOf(s.chunks, addr - HEADER);
        Sentinels(s);
        ReleaseKeeps(s, i);
        StillThere(UsedBag(Blocks(Release(s, i).chunks)), UsedBag(Blocks(s.chunks)),
                   (s.chunks[i].at, SizeAt(s.chunks, i)), b);
      }
    case Realloc(addr, size) =>
      if Frees(s, addr) && Resized(s, addr, size).block.Some? {
        MovedApart(s, addr, size, m, b);
      } else {
        ResizeKeeps(s, addr, size);
      }
  }

  lemma StillThere(a: multiset<(nat, int)>, b: multiset<(nat, int)>, x: (nat, int), z: (nat, int))
    requires a + multiset{x} == b && z in b && z.0 != x.0
    ensures z in a
  {
    assert (a + multiset{x})[z] == b[z];
  }

  lemma MovedApart(s: State, addr: nat, size: nat, m: seq<byte>, b: (nat, int))
    requires Valid(s) && Frees(s, addr) && Resized(s, addr, size).Sound? && Resized(s, addr, size).block.Some?
    requires b in UsedBag(Blocks(s.chunks)) && addr != b.0 + HEADER
    ensures b in UsedBag(Blocks(Resized(s, addr, size).heap.chunks))
    ensures Stretch(BytesAfter(s, Realloc(addr, size), m), b.0 + HEADER, b.1) == Stretch(m, b.0 + HEADER, b.1)
  {
    hide UsedBag, Blocks, Valid, Frees, Granted, Copied, Stretch, LengthOf, Resized;
    var Sound(s', block) := Resized(s, addr, size);
    var p := block.value;
    MovedInUse(s, addr, size, s', p);
    DoKeeps(s, Realloc(addr, size));
    BlocksApart(s', b, (p - HEADER, Granted(s, size)));
    CopiedApart(m, p, addr, LengthOf(s, addr), b.0 + HEADER, b.1);
  }

  /** No call frees or moves the block. */
  predicate Spares(ops: seq<Op>, b: (nat, int)) {
    forall k :: 0 <= k < |ops| ==> ops[k].Malloc? || ops[k].addr != b.0 + HEADER
  }

  /**
    * Over every run: a block that is neither freed nor moved stays in use, and no
    * call for another block changes a byte of it.
    */
  lemma {:induction false} BlockKept(s: State, ops: seq<Op>, m: seq<byte>, b: (nat, int))
    requires Valid(s) && AllLegal(s, ops) && Spares(ops, b) && b in UsedBag(Blocks(s.chunks))
    ensures b in UsedBag(Blocks(Run(s, ops).chunks))
    ensures Stretch(RunBytes(s, ops, m), b.0 + HEADER, b.1) == Stretch(m, b.0 + HEADER, b.1)
    decreases |ops|
  {
    hide UsedBag, Blocks, Valid, Do, Legal, BytesAfter, Stretch;
    if ops != [] {
      DoKeeps(s, ops[0]);
      BlockKeptOnce(s, ops[0], m, b);
      BlockKept(Do(s, ops[0]), ops[1..], BytesAfter(s, ops[0], m), b);
    }
  }
}
