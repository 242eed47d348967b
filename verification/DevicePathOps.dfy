/**
  * The routines that walk, measure, copy, extend and compare device paths in
  * memory, each proved to be its operation on node lists.
  */
module DevicePathOps {
  import opened Bytes
  import opened Seqs
  import opened DevicePath

  /** A pointer into one memory block. */
  datatype Ptr = Null | At(off: nat)

  // ---------- walking ----------

  /** `cur` is where the walk from `i` stands after `k` nodes. */
  ghost predicate Walked(m: seq<byte>, i: nat, cur: nat, k: nat) {
    && PathAt(m, i) && PathAt(m, cur)
    && var p := Parse(m, i);
    && k <= |p.body|
    && Parse(m, cur) == p.From(k)
    && cur == i + |Flat(p.body[..k])|
  }

  lemma WalkStart(m: seq<byte>, i: nat)
    requires PathAt(m, i)
    ensures Walked(m, i, i, 0)
  {
    var p := Parse(m, i);
    assert p.body[0..] == p.body && p.body[..0] == [];
  }

  lemma WalkStep(m: seq<byte>, i: nat, cur: nat, k: nat)
    requires Walked(m, i, cur, k) && !IsEnd(m, cur)
    ensures k < |Parse(m, i).body| && ReadNode(m, cur) == Parse(m, i).body[k]
    ensures Walked(m, i, cur + NodeLength(m, cur), k + 1)
  {
    var b := Parse(m, i).body;
    var n := ReadNode(m, cur);
    assert Parse(m, cur).body == [n] + Parse(m, cur + NodeLength(m, cur)).body;
    assert b[k..][0] == n && b[k + 1..] == b[k..][1..];
    FlatConcat(b[..k], [n]);
    FlatOne(n);
    assert b[..k + 1] == b[..k] + [n];
  }

  /** At the end node the whole body has been walked. */
  lemma WalkEnd(m: seq<byte>, i: nat, cur: nat, k: nat)
    requires Walked(m, i, cur, k) && IsEnd(m, cur)
    ensures k == |Parse(m, i).body| && cur == i + |Flat(Parse(m, i).body)|
    ensures ReadNode(m, cur) == Parse(m, i).end
  {
    var b := Parse(m, i).body;
    assert Parse(m, cur).body == [] == b[k..];
    assert b[..k] == b;
  }

  /** The nodes already walked are spelled out in front of the walk. */
  lemma WalkedBytes(m: seq<byte>, i: nat, cur: nat, k: nat)
    requires Walked(m, i, cur, k)
    ensures cur <= |m| && m[i..cur] == Flat(Parse(m, i).body[..k])
  {
    var p := Parse(m, i);
    ParseIsFaithful(m, i);
    hide Flat, Parse, PathAt;
    var rest := p.body[k..] + [p.end];
    assert p.Nodes() == p.body[..k] + rest;
    FlatConcat(p.body[..k], rest);
    ConcatParts(Flat(p.body[..k]), Flat(rest));
    SubSlice(m, i, PathBytes(p), 0, cur - i);
  }

  /** The size that `DevicePathSize` reports counts four bytes for the end node, whatever its length. */
  ghost function ReportedSize(p: Path): nat {
    |Flat(p.body)| + HEADER_SIZE
  }

  ghost predicate PlainEnd(p: Path) {
    p.end.data == []
  }

  lemma ReportedSizeIsExact(p: Path)
    ensures ReportedSize(p) <= |PathBytes(p)|
    ensures ReportedSize(p) == |PathBytes(p)| <==> PlainEnd(p)
  {
    FlatConcat(p.body, [p.end]);
    FlatOne(p.end);
  }

  /** As many bytes of a path as are reported, and copied. */
  ghost function CopiedBytes(p: Path): (b: seq<byte>)
    ensures |b| == ReportedSize(p)
  {
    Flat(p.body) + p.end.Bytes()[..HEADER_SIZE]
  }

  /** They are the path exactly when its end node is plain. */
  lemma CopiedIsWhole(p: Path)
    ensures CopiedBytes(p) <= PathBytes(p)
    ensures CopiedBytes(p) == PathBytes(p) <==> PlainEnd(p)
  {
    hide Flat;
    ReportedSizeIsExact(p);
    FlatConcat(p.body, [p.end]);
    FlatOne(p.end);
  }

  /** The path in memory, as the copies find it. */
  lemma SourceBytes(m: seq<byte>, i: nat)
    requires PathAt(m, i)
    ensures var p := Parse(m, i); i + ReportedSize(p) <= |m| && m[i..i + ReportedSize(p)] == CopiedBytes(p)
  {
    hide Parse, PathAt, Flat, CopiedBytes, PathBytes;
    var p := Parse(m, i);
    ParseIsFaithful(m, i);
    ReportedSizeIsExact(p);
    CopiedIsWhole(p);
    assert m[i..i + |PathBytes(p)|][..ReportedSize(p)] == m[i..i + ReportedSize(p)];
  }

  /** The walk to the end-entire node. */
  method FindEnd(m: seq<byte>, i: nat) returns (dev: nat)
    requires PathAt(m, i)
    ensures NodeAt(m, dev) && ReadNode(m, dev) == Parse(m, i).end
    ensures dev == i + |Flat(Parse(m, i).body)| && m[i..dev] == Flat(Parse(m, i).body)
  {
    dev := i;
    ghost var k := 0;
    WalkStart(m, i);
    while !IsEnd(m, dev)
      invariant Walked(m, i, dev, k)
      decreases |m| - dev
    {
      WalkStep(m, i, dev, k);
      dev := dev + NodeLength(m, dev);
      k := k + 1;
    }
    WalkEnd(m, i, dev, k);
    WalkedBytes(m, i, dev, k);
    assert Parse(m, i).body[..k] == Parse(m, i).body;
  }

  method DevicePathSize(m: seq<byte>, i: nat) returns (size: nat)
    requires PathAt(m, i)
    ensures size == ReportedSize(Parse(m, i))
    ensures i + size <= |m|
  {
    var dev := FindEnd(m, i);
    size := dev - i + HEADER_SIZE;
  }

  // ---------- instances ----------

  /**
    * What one call of the iterator delivers: the bytes of the next piece, and
    * the place where the rest of the path stands.
    */
  ghost predicate Delivered(m: seq<byte>, i: nat, next: Ptr, size: nat)
    requires PathAt(m, i)
  {
    var p := Parse(m, i);
    && i + size <= |m| && m[i..i + size] == Flat(Piece(p))
    && (if HasMore(p) then next.At? && PathAt(m, next.off) && Parse(m, next.off) == Rest(p)
        else next.Null?)
  }

  lemma StopsHere(m: seq<byte>, i: nat, cur: nat, k: nat)
    requires Walked(m, i, cur, k) && k <= NODE_LIMIT && k <= FirstEnd(Parse(m, i).body)
    requires IsEndType(m, cur) || k == NODE_LIMIT
    ensures Delivered(m, i, if m[cur + 1] == END_ENTIRE_SUBTYPE then Null else At(cur + NodeLength(m, cur)), cur - i)
  {
    hide Parse, ReadNode, Flat, FirstEnd, StopIndex;
    StopNode(m, i, cur, k);
    WalkedBytes(m, i, cur, k);
    if m[cur + 1] != END_ENTIRE_SUBTYPE {
      WalkStep(m, i, cur, k);
    }
  }

  lemma StopNode(m: seq<byte>, i: nat, cur: nat, k: nat)
    requires Walked(m, i, cur, k) && k <= NODE_LIMIT && k <= FirstEnd(Parse(m, i).body)
    requires IsEndType(m, cur) || k == NODE_LIMIT
    ensures StopIndex(Parse(m, i)) == k
    ensures HasMore(Parse(m, i)) <==> m[cur + 1] != END_ENTIRE_SUBTYPE
  {
    ReadNodeKind(m, cur);
    if IsEnd(m, cur) {
      WalkEnd(m, i, cur, k);
    } else {
      WalkStep(m, i, cur, k);
    }
  }

  /**
    * One step of the instance iterator: hands out the nodes up to the next
    * end-type node (or the 514th node) and the place to continue from.
    */
  method DevicePathInstance(m: seq<byte>, at: Ptr) returns (start: Ptr, next: Ptr, size: nat)
    requires at.At? ==> PathAt(m, at.off)
    ensures start == at
    ensures at.Null? ==> next.Null?
    ensures at.At? ==> Delivered(m, at.off, next, size)
  {
    hide Parse, ReadNode, Flat, FirstEnd, StopIndex, Delivered;
    start, next, size := at, Null, 0;
    if at.Null? {
      return;
    }
    var dev, count := at.off, 0;
    WalkStart(m, at.off);
    while !IsEndType(m, dev) && count <= 0x200
      invariant count <= NODE_LIMIT
      invariant Walked(m, at.off, dev, count) && count <= FirstEnd(Parse(m, at.off).body)
      decreases |m| - dev
    {
      WalkStep(m, at.off, dev, count);
      ReadNodeKind(m, dev);
      dev := dev + NodeLength(m, dev);
      count := count + 1;
    }
    StopsHere(m, at.off, dev, count);
    size := dev - at.off;
    if m[dev + 1] != END_ENTIRE_SUBTYPE {
      next := At(dev + NodeLength(m, dev));
    }
  }

  method DevicePathInstanceCount(m: seq<byte>, at: Ptr) returns (count: nat)
    requires at.At? ==> PathAt(m, at.off)
    ensures count == |Remaining(m, at)|
  {
    count := 0;
    var cur := at;
    var start, next, size := DevicePathInstance(m, cur);
    while start.At?
      invariant start == cur && (cur.At? ==> PathAt(m, cur.off) && Delivered(m, cur.off, next, size))
      invariant count + |Remaining(m, cur)| == |Remaining(m, at)|
      decreases |Remaining(m, cur)|
    {
      count := count + 1;
      cur := next;
      start, next, size := DevicePathInstance(m, cur);
    }
  }

  /** The pieces still to come. */
  ghost function Remaining(m: seq<byte>, at: Ptr): seq<seq<Node>>
    requires at.At? ==> PathAt(m, at.off)
  {
    if at.Null? then [] else Pieces(Parse(m, at.off))
  }

  lemma NextPiece(m: seq<byte>, i: nat, next: Ptr, size: nat)
    requires PathAt(m, i) && Delivered(m, i, next, size)
    ensures next.At? ==> PathAt(m, next.off)
    ensures Remaining(m, At(i)) == [Piece(Parse(m, i))] + Remaining(m, next)
  {
  }

  // ---------- copying ----------

  /** Buffer `a` holds exactly the bytes of `p`. */
  ghost predicate Spells(a: array<byte>, p: Path)
    reads a
  {
    p.Valid() && a[..] == PathBytes(p)
  }

  lemma SpelledParses(m: seq<byte>, p: Path)
    requires p.Valid() && PathBytes(p) <= m
    ensures PathAt(m, 0) && Parse(m, 0) == p
  {
    ParseUndoesEncoding(m, 0, p);
  }

  /** Writes the four bytes of an end-entire node. */
  method SetDevicePathEndNode(r: array<byte>, at: nat)
    requires at + HEADER_SIZE <= r.Length
    modifies r
    ensures r[..] == Overwrite(old(r[..]), at, END_NODE.Bytes())
    ensures r[..at] == old(r[..at]) && r[at..at + HEADER_SIZE] == END_NODE.Bytes()
  {
    r[at] := END_DEVICE_PATH_TYPE;
    r[at + 1] := END_ENTIRE_SUBTYPE;
    r[at + 2] := HEADER_SIZE;
    r[at + 3] := 0;
    assert r[at..at + HEADER_SIZE] == END_NODE.Bytes();
  }

  /** A single node with an end-entire node behind it. */
  ghost function Alone(n: Node): Path {
    Path([n], END_NODE)
  }

  /** What is read of a node with a terminator behind it: an end-entire node is itself the end. */
  ghost function Terminated(n: Node): Path {
    if n.EndEntire() then Path([], n) else Alone(n)
  }

  lemma NodeAndEnd(r: seq<byte>, n: Node)
    requires n.Valid() && n.Length() + HEADER_SIZE <= |r|
    requires r[..n.Length()] == n.Bytes() && r[n.Length()..n.Length() + HEADER_SIZE] == END_NODE.Bytes()
    ensures PathAt(r, 0) && Parse(r, 0) == Terminated(n)
  {
    var l := n.Length();
    FlatOne(n);
    FlatOne(END_NODE);
    FlatConcat([n], [END_NODE]);
    hide Flat, PathAt, Parse, Node.Bytes;
    assert r[..l + HEADER_SIZE] == r[..l] + r[l..l + HEADER_SIZE];
    assert Path([], n).Nodes() == [n];
    SpelledParses(r, Terminated(n));
  }

  /** The copy holds the reported bytes; it spells the path again exactly when the end node is plain. */
  method DuplicateDevicePath(m: seq<byte>, i: nat, granted: bool) returns (r: array?<byte>)
    requires PathAt(m, i)
    ensures r != null <==> granted
    ensures r != null ==> fresh(r) && r[..] == CopiedBytes(Parse(m, i))
    ensures r != null ==> (Spells(r, Parse(m, i)) <==> PlainEnd(Parse(m, i)))
  {
    hide Parse, PathAt, CopiedBytes, PathBytes;
    var size := DevicePathSize(m, i);
    SourceBytes(m, i);
    r := AllocatePool(size, granted);
    if r != null {
      CopyMem(r, 0, m, i, size);
      ParseIsValid(m, i);
      CopiedIsWhole(Parse(m, i));
    }
  }

  // ---------- appending an instance ----------

  /** The end-entire node of `p` turned into an end-instance node, with `q` behind it. */
  ghost function Join(p: Path, q: Path): Path {
    Path(p.body + ([p.end.(sub := END_INSTANCE_SUBTYPE)] + q.body), q.end)
  }

  lemma JoinBytes(p: Path, q: Path)
    ensures PathBytes(Join(p, q))
            == Flat(p.body) + p.end.(sub := END_INSTANCE_SUBTYPE).Bytes() + PathBytes(q)
  {
    var sep := p.end.(sub := END_INSTANCE_SUBTYPE);
    assert Join(p, q).Nodes() == (p.body + [sep]) + q.Nodes();
    FlatConcat(p.body + [sep], q.Nodes());
    FlatConcat(p.body, [sep]);
    FlatOne(sep);
  }

  lemma JoinValid(p: Path, q: Path)
    requires p.Valid() && q.Valid()
    ensures Join(p, q).Valid()
  {
  }

  /** Appending an instance list: instances and reported sizes add up. */
  lemma JoinInstances(p: Path, q: Path)
    requires p.end.EndType()
    ensures Instances(Join(p, q)) == Instances(p) + Instances(q)
    ensures PlainEnd(p) ==> ReportedSize(Join(p, q)) == ReportedSize(p) + ReportedSize(q)
  {
    var sep := p.end.(sub := END_INSTANCE_SUBTYPE);
    SplitConcat(p.body, sep, q.body);
    assert Join(p, q).body == p.body + [sep] + q.body;
    FlatConcat(p.body + [sep], q.body);
    FlatConcat(p.body, [sep]);
    FlatOne(sep);
  }

  /** The walks of the iterator over the path come to its end node, not to an earlier one of its subtype. */
  ghost predicate Uncut(p: Path)
    decreases |p.body|
  {
    if HasMore(p) then Uncut(Rest(p)) else StopIndex(p) == |p.body|
  }

  lemma RestValid(p: Path)
    requires p.Valid() && HasMore(p)
    ensures Rest(p).Valid()
  {
    hide StopIndex;
  }

  /** A path that respects the iterator's node limit is not cut off. */
  lemma {:induction false} LimitUncut(p: Path)
    requires p.Valid() && WithinLimit(Instances(p))
    ensures Uncut(p)
    decreases |p.body|
  {
    hide Split, FirstEnd, WithinLimit, ValidNodes;
    SplitFirst(p.body);
    LimitOfTail(Instances(p));
    if HasMore(p) {
      RestValid(p);
      LimitUncut(Rest(p));
    }
  }

  /**
    * The round trip of instances: iterating over the joined path delivers what
    * iterating over the two parts delivers if and only if the iteration over the
    * first part is not cut off.
    */
  lemma {:induction false} JoinPieces(p: Path, q: Path)
    requires p.Valid() && q.Valid()
    ensures Pieces(Join(p, q)) == Pieces(p) + Pieces(q) <==> Uncut(p)
    decreases |p.body|
  {
    hide FirstEnd, StopIndex, Split, Join;
    var r := Join(p, q);
    JoinFirst(p, q);
    if HasMore(p) {
      JoinFrom(p, q, StopIndex(p) + 1);
      JoinPieces(Rest(p), q);
      Assoc([Piece(p)], Pieces(Rest(p)), Pieces(q));
      ConsEqual(Piece(p), Pieces(Rest(r)), Pieces(Rest(p)) + Pieces(q));
    } else if StopIndex(p) < |p.body| {
      assert |Pieces(p) + Pieces(q)| > 1 && |Pieces(r)| == 1;
    }
  }

  /** A path in which the 514th node, an ordinary one, has the subtype of an end: what is joined behind is lost. */
  lemma JoinedIsLost(q: Path)
    requires q.Valid()
    ensures var p := Path(Plain(NODE_LIMIT) + [Node(1, END_ENTIRE_SUBTYPE, [])], END_NODE);
            p.Valid() && Pieces(Join(p, q)) != Pieces(p) + Pieces(q)
  {
    hide Plain, FirstEnd, Pieces, Join;
    var p := Path(Plain(NODE_LIMIT) + [Node(1, END_ENTIRE_SUBTYPE, [])], END_NODE);
    assert p.body[NODE_LIMIT].sub == END_ENTIRE_SUBTYPE;
    assert forall i :: 0 <= i < |p.body| ==> !p.body[i].EndType();
    assert StopIndex(p) == NODE_LIMIT;
    JoinPieces(p, q);
  }

  lemma JoinFrom(p: Path, q: Path, k: nat)
    requires k <= |p.body|
    ensures Join(p, q).From(k) == Join(p.From(k), q)
  {
    DropIntoFirst(p.body, [p.end.(sub := END_INSTANCE_SUBTYPE)] + q.body, k);
  }

  /** The first piece of the joined path is that of the first part, and so is what follows it. */
  lemma JoinFirst(p: Path, q: Path)
    requires p.Valid() && q.Valid()
    ensures var r := Join(p, q);
      && StopIndex(r) == StopIndex(p) && Piece(r) == Piece(p)
      && (StopIndex(p) < |p.body| ==> (HasMore(r) <==> HasMore(p)))
      && (StopIndex(p) == |p.body| ==> HasMore(r) && Rest(r) == q)
  {
    hide FirstEnd;
    var r, k := Join(p, q), FirstEnd(p.body);
    var sep := p.end.(sub := END_INSTANCE_SUBTYPE);
    assert forall i :: 0 <= i < |p.body| ==> r.body[i] == p.body[i];
    assert r.body[|p.body|] == sep;
    assert FirstEnd(r.body) == k;
    hide Join;
    assert r.body[..StopIndex(p)] == p.body[..StopIndex(p)];
    assert r.From(|p.body| + 1) == q by {
      assert r.body == (p.body + [sep]) + q.body;
    }
  }

  /** What is left in memory when the copied bytes of `q` go behind `p`. */
  ghost function JoinedBytes(p: Path, q: Path): seq<byte> {
    Flat(p.body) + p.end.(sub := END_INSTANCE_SUBTYPE).Bytes() + CopiedBytes(q)
  }

  /**
    * Copies `src`, turns its end node into an end-instance node in place and
    * copies `inst` behind it.  (Without a buffer there is no result.)  With a plain
    * end node of `inst` the result spells the joined path.
    */
  method AppendDevicePathInstance(ms: seq<byte>, src: Ptr, mi: seq<byte>, inst: nat, granted: bool)
    returns (r: array?<byte>)
    requires src.At? ==> PathAt(ms, src.off) && PlainEnd(Parse(ms, src.off))
    requires PathAt(mi, inst)
    ensures r != null <==> granted
    ensures r != null ==> fresh(r)
    ensures r != null && src.Null? ==> r[..] == CopiedBytes(Parse(mi, inst))
    ensures r != null && src.At? ==> r[..] == JoinedBytes(Parse(ms, src.off), Parse(mi, inst))
    ensures r != null && PlainEnd(Parse(mi, inst)) ==> Spells(r,
      if src.Null? then Parse(mi, inst) else Join(Parse(ms, src.off), Parse(mi, inst)))
  {
    hide JoinedBytes, CopiedBytes;
    if src.Null? {
      r := DuplicateDevicePath(mi, inst, granted);
    } else {
      r := CopyJoined(ms, src.off, mi, inst, granted);
    }
  }

  method CopyJoined(ms: seq<byte>, i: nat, mi: seq<byte>, inst: nat, granted: bool) returns (r: array?<byte>)
    requires PathAt(ms, i) && PlainEnd(Parse(ms, i))
    requires PathAt(mi, inst)
    ensures r != null <==> granted
    ensures r != null ==> fresh(r) && r[..] == JoinedBytes(Parse(ms, i), Parse(mi, inst))
    ensures r != null && PlainEnd(Parse(mi, inst)) ==> Spells(r, Join(Parse(ms, i), Parse(mi, inst)))
  {
    ghost var p, q := Parse(ms, i), Parse(mi, inst);
    JoinReady(ms, i, mi, inst);
    hide Parse, Flat, PathAt, ReadNode, Path.Valid, Node.Bytes, PathBytes, Overwrite, Join, CopiedBytes;
    var srcSize := DevicePathSize(ms, i);
    var instSize := DevicePathSize(mi, inst);
    r := AllocatePool(srcSize + instSize, granted);
    if r != null {
      CopyMem(r, 0, ms, i, srcSize);
      assert PathBytes(p) == r[0..srcSize] <= r[..];
      CopyBehind(r, p, mi, inst, instSize);
      JoinBytes(p, q);
      CopiedIsWhole(q);
    }
  }

  /** The in-place half: the end node becomes a separator, the new bytes go behind it. */
  method CopyBehind(r: array<byte>, ghost p: Path, src: seq<byte>, from: nat, len: nat)
    requires p.Valid() && PlainEnd(p) && PathBytes(p) <= r[..]
    requires r.Length == ReportedSize(p) + len && from + len <= |src|
    modifies r
    ensures r[..] == Flat(p.body) + p.end.(sub := END_INSTANCE_SUBTYPE).Bytes() + src[from..from + len]
  {
    hide Parse, Flat, PathAt, ReadNode, Path.Valid, Node.Bytes, PathBytes;
    SpelledParses(r[..], p);
    var dev := FindEnd(r[..], 0);
    PatchEnd(r[..], dev, p);
    ghost var patched := r[..][dev + 1 := END_INSTANCE_SUBTYPE];
    r[dev + 1] := END_INSTANCE_SUBTYPE;
    assert r[..] == patched;
    dev := dev + NodeLength(r[..], dev);
    CopyMem(r, dev, src, from, len);
  }

  /** What the two inputs have to offer. */
  lemma JoinReady(ms: seq<byte>, i: nat, mi: seq<byte>, j: nat)
    requires PathAt(ms, i) && PlainEnd(Parse(ms, i)) && PathAt(mi, j)
    ensures var p, q := Parse(ms, i), Parse(mi, j);
      && p.Valid() && q.Valid() && Join(p, q).Valid()
      && i + ReportedSize(p) <= |ms| && ms[i..i + ReportedSize(p)] == PathBytes(p)
      && j + ReportedSize(q) <= |mi| && mi[j..j + ReportedSize(q)] == CopiedBytes(q)
  {
    hide Parse, PathAt, CopiedBytes, Join, PathBytes;
    ParseIsValid(ms, i);
    ParseIsValid(mi, j);
    SourceBytes(ms, i);
    SourceBytes(mi, j);
    CopiedIsWhole(Parse(ms, i));
    JoinValid(Parse(ms, i), Parse(mi, j));
  }

  /** Writing the subtype byte of the end node turns it into a separator. */
  lemma PatchEnd(m: seq<byte>, dev: nat, p: Path)
    requires NodeAt(m, dev) && ReadNode(m, dev) == p.end && PlainEnd(p)
    requires dev == |Flat(p.body)| && m[..dev] == Flat(p.body)
    ensures var m' := m[dev + 1 := END_INSTANCE_SUBTYPE];
      && NodeLength(m', dev) == HEADER_SIZE
      && m'[..dev + HEADER_SIZE] == Flat(p.body) + p.end.(sub := END_INSTANCE_SUBTYPE).Bytes()
  {
    ReadNodeBytes(m, dev);
    hide Flat;
    var m' := m[dev + 1 := END_INSTANCE_SUBTYPE];
    assert m'[..dev] == m[..dev];
    assert m'[dev..dev + HEADER_SIZE] == p.end.(sub := END_INSTANCE_SUBTYPE).Bytes();
  }
}
