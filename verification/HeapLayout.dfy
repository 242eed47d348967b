/**
  * Where the kernel heap keeps its links: a header in front of each block and, in a
  * free block, two more links.  A copy into a block keeps them exactly when it stays
  * inside that block.
  */
module HeapLayout {
  import opened Bytes
  import opened HeapModel
  import opened HeapOps
  import opened HeapResize
  import opened HeapBytes

  /** A number in `n` bytes, the lowest first. */
  function Little(v: nat, n: nat): (b: seq<byte>)
    ensures |b| == n
  {
    if n == 0 then [] else [v % 256] + Little(v / 256, n - 1)
  }

  /** The links of entry `k` of a ring that is given by the places of its links. */
  function LinkBytes(ring: seq<nat>, k: nat): (b: seq<byte>)
    requires k < |ring|
    ensures |b| == 16
  {
    Little(ring[if k + 1 < |ring| then k + 1 else 0], 8) + Little(ring[if k > 0 then k - 1 else |ring| - 1], 8)
  }

  function Addresses(cs: seq<Chunk>): (r: seq<nat>)
    ensures |r| == |cs|
  {
    seq(|cs|, i requires 0 <= i < |cs| => cs[i].at)
  }

  /** The links into the ring of all chunks, and the flag. */
  function HeaderBytes(cs: seq<Chunk>, i: nat): (b: seq<byte>)
    requires i < |cs|
    ensures |b| == 20
  {
    LinkBytes(Addresses(cs), i) + Little(if cs[i].used then 1 else 0, 4)
  }

  /** The links of a list stand behind the headers of its chunks. */
  function Behind(l: seq<nat>): (r: seq<nat>)
    ensures |r| == |l|
  {
    seq(|l|, k requires 0 <= k < |l| => l[k] + HEADER)
  }

  ghost predicate Holds(m: seq<byte>, at: nat, b: seq<byte>) {
    at + |b| <= |m| && m[at..at + |b|] == b
  }

  ghost predicate HeadersKept(s: State, m: seq<byte>) {
    forall i :: 0 <= i < |s.chunks| ==> Holds(m, s.chunks[i].at, HeaderBytes(s.chunks, i))
  }

  ghost predicate ListsKept(s: State, m: seq<byte>) {
    forall n, k :: 0 <= n < |s.buckets| && 0 <= k < |s.buckets[n]| ==>
      Holds(m, s.buckets[n][k] + HEADER, LinkBytes(Behind(s.buckets[n]), k))
  }

  /** The memory holds the links and flags of all chunks, and the links of all lists. */
  ghost predicate Bookkept(s: State, m: seq<byte>) {
    HeadersKept(s, m) && ListsKept(s, m)
  }

  // ---------- blocks and links are apart ----------

  /** A header does not reach into a block. */
  lemma HeaderApart(s: State, i: nat, j: nat)
    requires Valid(s) && i < |s.chunks| - 1 && j < |s.chunks|
    ensures s.chunks[j].at + 20 <= s.chunks[i].at + HEADER || s.chunks[i + 1].at <= s.chunks[j].at
  {
    hide Blocks, Coalesced, Filed;
    if j < i {
      Ordered(s.chunks, j, i);
    } else if i + 1 < j {
      Ordered(s.chunks, i + 1, j);
    }
  }

  /** What is in a list is a free chunk. */
  lemma ListedIsFree(s: State, n: nat, k: nat) returns (j: nat)
    requires Valid(s) && n < |s.buckets| && k < |s.buckets[n]|
    ensures j < |s.chunks| - 1 && s.chunks[j] == Chunk(s.buckets[n][k], false)
  {
    hide FreeBag, Blocks, Coalesced, Slot;
    var a := s.buckets[n][k];
    assert a in multiset(s.buckets[n]);
    j := FindFree(Blocks(s.chunks), n, a);
    SizeInRange(s.chunks, j);
  }

  /** The links of a list do not reach into a block in use. */
  lemma LinksApart(s: State, i: nat, n: nat, k: nat)
    requires Valid(s) && i < |s.chunks| - 1 && s.chunks[i].used && n < |s.buckets| && k < |s.buckets[n]|
    ensures s.buckets[n][k] + CHUNK <= s.chunks[i].at || s.chunks[i + 1].at <= s.buckets[n][k]
  {
    hide Blocks, Coalesced, Filed;
    var j := ListedIsFree(s, n, k);
    if j < i {
      Ordered(s.chunks, j, i);
    } else if i + 1 < j {
      Ordered(s.chunks, i + 1, j);
    }
  }

  ghost predicate SameOutside(m: seq<byte>, m': seq<byte>, lo: int, hi: int) {
    |m'| == |m| && forall a :: 0 <= a < |m| && !(lo <= a < hi) ==> m'[a] == m[a]
  }

  lemma HoldsStill(m: seq<byte>, m': seq<byte>, lo: int, hi: int, at: nat, b: seq<byte>)
    requires SameOutside(m, m', lo, hi) && Holds(m, at, b) && (at + |b| <= lo || hi <= at)
    ensures Holds(m', at, b)
  {
  }

  /** Whatever is written inside a block in use, the links are kept. */
  lemma WriteInside(s: State, m: seq<byte>, m': seq<byte>, i: nat)
    requires Valid(s) && Bookkept(s, m) && i < |s.chunks| - 1 && s.chunks[i].used
    requires SameOutside(m, m', s.chunks[i].at + HEADER, s.chunks[i + 1].at)
    ensures Bookkept(s, m')
  {
    hide Valid, HeaderBytes, LinkBytes, Holds, SameOutside, Behind;
    var lo, hi := s.chunks[i].at + HEADER, s.chunks[i + 1].at;
    forall j | 0 <= j < |s.chunks| ensures Holds(m', s.chunks[j].at, HeaderBytes(s.chunks, j)) {
      HeaderApart(s, i, j);
      HoldsStill(m, m', lo, hi, s.chunks[j].at, HeaderBytes(s.chunks, j));
    }
    forall n, k | 0 <= n < |s.buckets| && 0 <= k < |s.buckets[n]|
      ensures Holds(m', s.buckets[n][k] + HEADER, LinkBytes(Behind(s.buckets[n]), k))
    {
      LinksApart(s, i, n, k);
      HoldsStill(m, m', lo, hi, s.buckets[n][k] + HEADER, LinkBytes(Behind(s.buckets[n]), k));
    }
  }

  // ---------- the copy ----------

  /** The old and the new block after the allocation. */
  lemma OldAndNew(s: State, addr: nat, size: nat) returns (i: nat, j: nat)
    requires Valid(s) && Frees(s, addr) && Choice(s, size).Some?
    ensures var (s', p) := Allocate(s, size);
            && Valid(s') && p.Some? && i < |s'.chunks| - 1 && j < |s'.chunks| - 1
            && s'.chunks[i].used && s'.chunks[j].used
            && s'.chunks[i].at + HEADER == p.value && s'.chunks[i + 1].at == p.value + Granted(s, size)
            && s'.chunks[j].at + HEADER == addr && s'.chunks[j + 1].at == addr + LengthOf(s, addr)
  {
    hide Blocks, Slot, Choice, Carved, Valid, UsedBag, Rounded, Granted, Allocate;
    var s' := Allocate(s, size).0;
    GrantedLength(s, size);
    OtherStays(s, size, addr);
    AllocateKeeps(s, size);
    var p := Allocate(s, size).1.value;
    j := IndexOf(s'.chunks, addr - HEADER);
    i := UsedChunk(s', (p - HEADER, Granted(s, size)));
  }

  /**
    * The copy of a block keeps the heap's links, whatever the block holds, if and only
    * if the block is no longer than what is granted.
    */
  lemma CopyKeepsLinks(s: State, addr: nat, size: nat, m: seq<byte>)
    requires Valid(s) && Frees(s, addr) && Choice(s, size).Some? && Bookkept(Allocate(s, size).0, m)
    ensures var (s', p) := Allocate(s, size);
            var len := LengthOf(s, addr);
            && p.Some?
            && ((forall m' :: SameOutside(m, m', addr, addr + len) ==> Bookkept(s', Copied(m', p.value, addr, len)))
                <==> len <= Granted(s, size))
  {
    hide Blocks, Slot, Choice, Valid, Granted, Allocate, Frees, Bookkept, LengthOf, SameOutside;
    var i, j := OldAndNew(s, addr, size);
    var (s', p) := Allocate(s, size);
    var len := LengthOf(s, addr);
    if len <= Granted(s, size) {
      forall m' | SameOutside(m, m', addr, addr + len) ensures Bookkept(s', Copied(m', p.value, addr, len)) {
        CopyInside(s', m, m', i, j, len);
      }
    } else {
      var m' := CopyOutside(s', m, i, j, len);
    }
  }

  lemma CopyInside(s: State, m: seq<byte>, m': seq<byte>, i: nat, j: nat, len: int)
    requires Valid(s) && Bookkept(s, m) && i < |s.chunks| - 1 && j < |s.chunks| - 1
    requires s.chunks[i].used && s.chunks[j].used && s.chunks[j + 1].at == s.chunks[j].at + HEADER + len
    requires SameOutside(m, m', s.chunks[j].at + HEADER, s.chunks[j + 1].at)
    requires s.chunks[i].at + HEADER + len <= s.chunks[i + 1].at
    ensures Bookkept(s, Copied(m', s.chunks[i].at + HEADER, s.chunks[j].at + HEADER, len))
  {
    hide Valid, Bookkept;
    WriteInside(s, m, m', j);
    WriteInside(s, m', Copied(m', s.chunks[i].at + HEADER, s.chunks[j].at + HEADER, len), i);
  }

  /** Some contents of the old block that the copy puts in place of the next header. */
  lemma CopyOutside(s: State, m: seq<byte>, i: nat, j: nat, len: int) returns (m': seq<byte>)
    requires Valid(s) && Bookkept(s, m) && i < |s.chunks| - 1 && j < |s.chunks| - 1 && i != j
    requires s.chunks[j + 1].at == s.chunks[j].at + HEADER + len
    requires s.chunks[i + 1].at < s.chunks[i].at + HEADER + len
    ensures SameOutside(m, m', s.chunks[j].at + HEADER, s.chunks[j + 1].at)
    ensures !Bookkept(s, Copied(m', s.chunks[i].at + HEADER, s.chunks[j].at + HEADER, len))
  {
    hide HeaderBytes, ListsKept, Blocks, Coalesced, Filed;
    SizeInRange(s.chunks, i);
    var p, addr, next := s.chunks[i].at + HEADER, s.chunks[j].at + HEADER, s.chunks[i + 1].at;
    var x := addr + (next - p);
    assert Holds(m, next, HeaderBytes(s.chunks, i + 1));
    assert Holds(m, s.chunks[j + 1].at, HeaderBytes(s.chunks, j + 1));
    assert x < |m|;
    m' := m[x := if m[next] == 0 then 1 else 0];
    assert Copied(m', p, addr, len)[next] == m'[x] != m[next];
  }
}
