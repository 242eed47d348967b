/** Blocks of the kernel heap that are cleared or moved: when the bytes written stay inside the block. */
module HeapResize {
  import opened Machine
  import opened HeapModel
  import opened HeapOps

  /** The address is that of a chunk in use that is not a sentinel. */
  predicate Frees(s: State, addr: nat) {
    && addr >= HEADER && |s.chunks| > 0 && s.chunks[|s.chunks| - 1].used
    && var i := IndexOf(s.chunks, addr - HEADER);
       0 < i < |s.chunks| - 1 && s.chunks[i].used
  }

  function Freed(s: State, addr: nat): State {
    if Frees(s, addr) then Release(s, IndexOf(s.chunks, addr - HEADER)) else s
  }

  /** The length of a block in use. */
  function LengthOf(s: State, addr: nat): int
    requires Frees(s, addr)
  {
    SizeAt(s.chunks, IndexOf(s.chunks, addr - HEADER))
  }

  /** Where a chunk stands after an allocation took chunk `i` and perhaps put its rest behind it. */
  function Shifted(s: State, i: nat, size: nat, j: nat): nat
    requires i + 1 < |s.chunks|
  {
    if i < j && size + CHUNK <= SizeAt(s.chunks, i) then j + 1 else j
  }

  lemma CarvedLength(s: State, i: nat, size: nat)
    requires i + 1 < |s.chunks|
    ensures var cs := Carved(s, i, size).chunks;
            && i + 1 < |cs| && cs[i] == Chunk(s.chunks[i].at, true)
            && SizeAt(cs, i) == KeptLength(SizeAt(s.chunks, i), size)
  {
    hide Slot, Pushed;
  }

  lemma CarvedOthers(s: State, i: nat, size: nat, j: nat)
    requires i + 1 < |s.chunks| && j + 1 < |s.chunks| && j != i
    ensures var cs, j' := Carved(s, i, size).chunks, Shifted(s, i, size, j);
            j' + 1 < |cs| && cs[j'] == s.chunks[j] && SizeAt(cs, j') == SizeAt(s.chunks, j)
  {
    hide Slot, Pushed;
  }

  /** The block that an allocation gives has the length it was granted. */
  lemma GrantedLength(s: State, size: nat)
    requires Valid(s) && Choice(s, size).Some?
    ensures var (s', p) := Allocate(s, size);
            && p.Some? && p.value >= HEADER
            && var i := IndexOf(s'.chunks, p.value - HEADER);
               && i + 1 < |s'.chunks| && s'.chunks[i].at == p.value - HEADER
               && SizeAt(s'.chunks, i) == Granted(s, size)
    ensures Rounded(size) <= Granted(s, size) < Rounded(size) + CHUNK
  {
    hide Blocks, Slot, Choice, Carved, Coalesced, Filed, UsedBag, Rounded;
    Chosen(s, size);
    var (k, i) := Choice(s, size).value;
    CarvedLength(State(s.chunks, s.buckets[k := s.buckets[k][1..]]), i, Rounded(size));
    AllocateKeeps(s, size);
    IndexUnique(Allocate(s, size).0.chunks, i);
  }

  /** A block in use stays where it is and as long as it is when another is taken. */
  lemma OtherStays(s: State, size: nat, addr: nat)
    requires Valid(s) && Choice(s, size).Some? && Frees(s, addr)
    ensures var s' := Allocate(s, size).0;
            Frees(s', addr) && LengthOf(s', addr) == LengthOf(s, addr)
  {
    hide Blocks, Slot, Choice, Carved, Coalesced, Filed, UsedBag, Rounded;
    Chosen(s, size);
    var (k, i) := Choice(s, size).value;
    var j := IndexOf(s.chunks, addr - HEADER);
    var taken := State(s.chunks, s.buckets[k := s.buckets[k][1..]]);
    CarvedOthers(taken, i, Rounded(size), j);
    AllocateKeeps(s, size);
    IndexUnique(Allocate(s, size).0.chunks, Shifted(taken, i, Rounded(size), j));
  }

  // ---------- clearing ----------

  /** As many bytes as were asked for are cleared; they are all in the block unless the request wrapped around. */
  lemma ClearInsideExactly(s: State, size: nat)
    requires Valid(s) && size < TWO64 && Choice(s, size).Some?
    ensures size <= Granted(s, size) <==> size <= TWO64 - 4
  {
    hide Blocks, Slot, UsedBag, Valid, Granted, Choice;
    GrantedLength(s, size);
    RoundedExactly(size);
  }

  // ---------- the copy ----------

  /** As many bytes as the old block has are copied to the new one, and do not reach the chunk behind it. */
  predicate CopyStaysInside(s: State, addr: nat, size: nat)
    requires Frees(s, addr)
  {
    var (s', p) := Allocate(s, size);
    p.Some? ==>
      && p.value >= HEADER
      && var i := IndexOf(s'.chunks, p.value - HEADER);
         && i + 1 < |s'.chunks|
         && p.value + LengthOf(s, addr) <= s'.chunks[i + 1].at
  }

  /** The copy stays inside the new block if and only if the old block is no longer than what is granted. */
  lemma CopyInsideExactly(s: State, addr: nat, size: nat)
    requires Valid(s) && Frees(s, addr) && Choice(s, size).Some?
    ensures CopyStaysInside(s, addr, size) <==> LengthOf(s, addr) <= Granted(s, size)
  {
    hide Blocks, Slot, Choice, UsedBag, Rounded, Valid, Granted, Allocate;
    GrantedLength(s, size);
  }

  /** Growing is safe, unless the request is one of the last three sizes. */
  lemma GrowingIsSafe(s: State, addr: nat, size: nat)
    requires Valid(s) && Frees(s, addr) && size <= TWO64 - 4
    requires LengthOf(s, addr) <= size
    ensures CopyStaysInside(s, addr, size)
  {
    hide Blocks, Slot, UsedBag, Valid, Granted, Choice;
    if Choice(s, size).Some? {
      CopyInsideExactly(s, addr, size);
      GrantedLength(s, size);
      RoundedExactly(size);
    }
  }

  /** Shrinking by a chunk or more is not. */
  lemma ShrinkingOverruns(s: State, addr: nat, size: nat)
    requires Valid(s) && Frees(s, addr) && Choice(s, size).Some?
    requires Rounded(size) + CHUNK <= LengthOf(s, addr)
    ensures !CopyStaysInside(s, addr, size)
  {
    hide Blocks, Slot, UsedBag, Valid, Granted, Choice;
    CopyInsideExactly(s, addr, size);
    GrantedLength(s, size);
  }

  // ---------- resizing ----------

  /** What is left: a heap and perhaps a block, or a heap whose chunks the copy has written over. */
  datatype Result = Sound(heap: State, block: Option<nat>) | Spoiled

  /**
    * A new block is taken, the old block is copied there, and is freed.  Without a new
    * block, or for null, nothing happens.
    */
  function Resized(s: State, addr: nat, size: nat): Result
    requires addr == 0 || Frees(s, addr)
  {
    if addr == 0 then Sound(s, None)
    else
      var (s', p) := Allocate(s, size);
      if p.None? then Sound(s, None)
      else if CopyStaysInside(s, addr, size) then Sound(Freed(s', addr), p)
      else Spoiled
  }

  /**
    * The heap is spoiled exactly when a block is granted that is shorter than the old
    * one.  Otherwise it is valid: either nothing has changed, or the old block is no
    * longer in use and the new one is.
    */
  lemma ResizeKeeps(s: State, addr: nat, size: nat)
    requires Valid(s) && (addr == 0 || Frees(s, addr))
    ensures match Resized(s, addr, size)
            case Spoiled => addr != 0 && Choice(s, size).Some? && Granted(s, size) < LengthOf(s, addr)
            case Sound(s', None) => s' == s && (addr == 0 || Choice(s, size).None?)
            case Sound(s', Some(p)) =>
              && Valid(s') && addr != 0 && Choice(s, size).Some? && LengthOf(s, addr) <= Granted(s, size)
              && p >= HEADER
              && UsedBag(Blocks(s'.chunks)) + multiset{(addr - HEADER, LengthOf(s, addr))}
                 == UsedBag(Blocks(s.chunks)) + multiset{(p - HEADER, Granted(s, size))}
  {
    hide Blocks, Slot, Choice, UsedBag, Rounded, Valid, Release, Granted, Allocate, IndexOf, CopyStaysInside;
    var (s1, p) := Allocate(s, size);
    AllocateKeeps(s, size);
    if addr != 0 && p.Some? {
      CopyInsideExactly(s, addr, size);
      GrantedLength(s, size);
      OtherStays(s, size, addr);
      ReleaseKeeps(s1, IndexOf(s1.chunks, addr - HEADER));
    }
  }
}
