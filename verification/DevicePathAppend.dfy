/** Appending one device path to another, and the exact conditions under which that does what it says. */
module DevicePathAppend {
  import opened Bytes
  import opened Seqs
  import opened DevicePath
  import opened DevicePathOps

  /** One instance of the first path, the whole second path, and an end-instance node. */
  ghost function Block(ns: seq<Node>, tail: seq<byte>): (b: seq<byte>)
    ensures |b| == |Flat(ns)| + |tail| + HEADER_SIZE
  {
    (Flat(ns) + tail) + END_INSTANCE_NODE.Bytes()
  }

  ghost function Blocks(ps: seq<seq<Node>>, tail: seq<byte>): seq<byte> {
    if ps == [] then [] else Block(ps[0], tail) + Blocks(ps[1..], tail)
  }

  lemma {:induction false} BlocksConcat(a: seq<seq<Node>>, b: seq<seq<Node>>, tail: seq<byte>)
    ensures Blocks(a + b, tail) == Blocks(a, tail) + Blocks(b, tail)
  {
    hide Block;
    if a == [] {
      assert a + b == b;
    } else {
      BlocksConcat(a[1..], b, tail);
      TailOfConcat(a, b);
      Assoc(Block(a[0], tail), Blocks(a[1..], tail), Blocks(b, tail));
    }
  }

  lemma BlocksBounds(ps: seq<seq<Node>>, tail: seq<byte>)
    ensures Blocks([], tail) == []
    ensures ps != [] ==> HEADER_SIZE <= |Blocks(ps, tail)|
  {
  }

  lemma BlocksOne(ns: seq<Node>, tail: seq<byte>)
    ensures Blocks([ns], tail) == Block(ns, tail)
  {
    assert Blocks([ns], tail) == Block(ns, tail) + Blocks([], tail);
  }

  // ---------- sizes ----------

  ghost function AllocatedSize(p: Path, q: Path): nat {
    ReportedSize(p) * |Pieces(p)| + ReportedSize(q)
  }

  ghost function WrittenSize(p: Path, q: Path): nat {
    |Blocks(Pieces(p), CopiedBytes(q))|
  }

  /** What is written stays inside what was allocated. */
  ghost predicate Fits(p: Path, q: Path) {
    WrittenSize(p, q) <= AllocatedSize(p, q)
  }

  ghost predicate PlainSeparators(ns: seq<Node>) {
    forall i :: 0 <= i < |ns| && ns[i].EndType() ==> ns[i].data == []
  }

  /** A path whose end nodes are all four bytes long and whose instances respect the node limit. */
  ghost predicate Regular(p: Path) {
    p.Valid() && PlainEnd(p) && PlainSeparators(p.body) && WithinLimit(Instances(p))
  }

  ghost function Total(ps: seq<seq<Node>>): nat {
    if ps == [] then 0 else |Flat(ps[0])| + Total(ps[1..])
  }

  lemma {:induction false} BlocksSize(ps: seq<seq<Node>>, tail: seq<byte>)
    ensures |Blocks(ps, tail)| == Total(ps) + |ps| * (|tail| + HEADER_SIZE)
  {
    hide Block;
    if ps != [] {
      BlocksSize(ps[1..], tail);
      OneMore(|ps[1..]|, |tail| + HEADER_SIZE);
    }
  }

  lemma OneMore(k: nat, n: nat)
    ensures (k + 1) * n == k * n + n
  {
  }

  /** Every instance is followed by one four-byte node. */
  lemma {:induction false} SizeOfInstances(ns: seq<Node>)
    requires PlainSeparators(ns)
    ensures |Flat(ns)| + HEADER_SIZE == Total(Split(ns)) + HEADER_SIZE * |Split(ns)|
  {
    hide Node.Bytes;
    if ns != [] {
      var parts := Split(ns[1..]);
      SizeOfInstances(ns[1..]);
      if ns[0].EndType() {
        assert Split(ns)[1..] == parts;
      } else {
        assert Flat([ns[0]] + parts[0]) == ns[0].Bytes() + Flat(parts[0]) by {
          FlatConcat([ns[0]], parts[0]);
          FlatOne(ns[0]);
        }
      }
    }
  }

  /**
    * The exact condition: the buffer is large enough if and only if the first
    * path has one instance or the second path is no longer than the first.
    */
  lemma AppendFits(p: Path, q: Path)
    requires Regular(p)
    ensures Fits(p, q) <==> |Instances(p)| == 1 || ReportedSize(q) <= ReportedSize(p)
    ensures |Instances(p)| == 1 ==> WrittenSize(p, q) == AllocatedSize(p, q)
  {
    PiecesAreInstances(p);
    SizeOfInstances(p.body);
    BlocksSize(Pieces(p), CopiedBytes(q));
    hide Flat, Split, Blocks, Pieces, CopiedBytes, Total;
    Margin(ReportedSize(p), ReportedSize(q), |Instances(p)|, Total(Instances(p)));
  }

  lemma Margin(a: nat, b: nat, k: nat, t: nat)
    requires k >= 1 && a == t + HEADER_SIZE * k
    ensures t + k * (b + HEADER_SIZE) <= a * k + b <==> k == 1 || b <= a
    ensures k == 1 ==> t + k * (b + HEADER_SIZE) == a * k + b
  {
    assert t + k * (b + HEADER_SIZE) == a + k * b;
    assert a * k + b - (a + k * b) == (k - 1) * (a - b);
    if k > 1 && b <= a {
      assert (k - 1) * (a - b) >= 0;
    } else if k > 1 {
      assert (k - 1) * (a - b) < 0;
    }
  }

  lemma {:induction false} PlainSize(n: nat)
    ensures |Flat(Plain(n))| == HEADER_SIZE * n
  {
    if n > 0 {
      assert Plain(n)[1..] == Plain(n - 1);
      PlainSize(n - 1);
    }
  }

  lemma TwoInstances()
    ensures var p := Path(Plain(1) + [END_INSTANCE_NODE] + Plain(1), END_NODE);
            Regular(p) && Instances(p) == [Plain(1), Plain(1)] && ReportedSize(p) == 16
  {
    PlainPath(1);
    SplitConcat(Plain(1), END_INSTANCE_NODE, Plain(1));
    PlainSize(1);
    FlatConcat(Plain(1) + [END_INSTANCE_NODE], Plain(1));
    FlatConcat(Plain(1), [END_INSTANCE_NODE]);
    FlatOne(END_INSTANCE_NODE);
    hide Flat, Split;
  }

  /** Two instances of one node each, followed by a path of 20 bytes: 56 bytes are written to 52. */
  lemma AppendOverruns()
    ensures var p, q := Path(Plain(1) + [END_INSTANCE_NODE] + Plain(1), END_NODE), Path(Plain(4), END_NODE);
            && Regular(p) && q.Valid() && PlainEnd(q)
            && AllocatedSize(p, q) == 52 && WrittenSize(p, q) == 56
  {
    hide Flat, Split, Plain, Pieces, CopiedBytes, Regular, Blocks;
    var p, q := Path(Plain(1) + [END_INSTANCE_NODE] + Plain(1), END_NODE), Path(Plain(4), END_NODE);
    TwoInstances();
    PlainPath(4);
    PiecesAreInstances(p);
    PlainSize(1);
    PlainSize(4);
    BlocksSize(Pieces(p), CopiedBytes(q));
    assert Total([Plain(1), Plain(1)]) == 8;
  }

  // ---------- the routine ----------

  /** The path one reads back: the first instance of `p` continued by `q`. */
  ghost function Appended(p: Path, q: Path): Path {
    Path(Piece(p) + q.body, q.end)
  }

  lemma AppendedBytes(p: Path, q: Path)
    requires p.Valid() && q.Valid()
    ensures Appended(p, q).Valid() && PathBytes(Appended(p, q)) == Flat(Piece(p)) + PathBytes(q)
  {
    Assoc(Piece(p), q.body, [q.end]);
    FlatConcat(Piece(p), q.Nodes());
  }

  /** The blocks with the last end-instance node overwritten by an end-entire node. */
  ghost predicate Filled(m: seq<byte>, ps: seq<seq<Node>>, tail: seq<byte>) {
    var b := Blocks(ps, tail);
    HEADER_SIZE <= |b| <= |m| && m[..|b| - HEADER_SIZE] == b[..|b| - HEADER_SIZE]
    && m[|b| - HEADER_SIZE..|b|] == END_NODE.Bytes()
  }

  lemma FilledParses(m: seq<byte>, p: Path, q: Path)
    requires p.Valid() && q.Valid() && PlainEnd(q) && Filled(m, Pieces(p), CopiedBytes(q))
    ensures PathAt(m, 0) && Parse(m, 0) == Appended(p, q)
  {
    hide Flat, Split, FirstEnd, Node.Bytes, CopiedBytes;
    CopiedIsWhole(q);
    var ps, tail := Pieces(p), PathBytes(q);
    var b, head := Blocks(ps, tail), Flat(Piece(p)) + tail;
    assert head <= b[..|b| - HEADER_SIZE];
    AppendedBytes(p, q);
    SpelledParses(m, Appended(p, q));
  }

  /** One more block goes behind `done`, and there is room for it. */
  lemma BlockStep(ps: seq<seq<Node>>, done: seq<seq<Node>>, ns: seq<Node>, rest: seq<seq<Node>>, tail: seq<byte>)
    requires ps == done + ([ns] + rest)
    ensures ps == (done + [ns]) + rest
    ensures Blocks(done + [ns], tail) == Blocks(done, tail) + Block(ns, tail)
    ensures |Blocks(done + [ns], tail)| <= |Blocks(ps, tail)|
  {
    Assoc(done, [ns], rest);
    BlocksConcat(done + [ns], rest, tail);
    BlocksConcat(done, [ns], tail);
    BlocksOne(ns, tail);
  }

  method CopyBlock(r: array<byte>, at: nat, m1: seq<byte>, i: nat, size1: nat, m2: seq<byte>, j: nat, size2: nat)
    returns (pos: nat)
    requires i + size1 <= |m1| && j + size2 <= |m2| && at + size1 + size2 + HEADER_SIZE <= r.Length
    modifies r
    ensures pos == at + size1 + size2 + HEADER_SIZE
    ensures r[..pos] == old(r[..at]) + ((m1[i..i + size1] + m2[j..j + size2]) + END_INSTANCE_NODE.Bytes())
  {
    hide Overwrite, Node.Bytes;
    pos := at;
    CopyMem(r, pos, m1, i, size1);
    pos := pos + size1;
    CopyMem(r, pos, m2, j, size2);
    pos := pos + size2;
    assert r[..pos] == old(r[..at]) + (m1[i..i + size1] + m2[j..j + size2]);
    CopyMem(r, pos, END_INSTANCE_NODE.Bytes(), 0, HEADER_SIZE);
    pos := pos + HEADER_SIZE;
  }

  /** `Src2` is copied behind every piece of `Src1`, then the last end marker is changed. */
  method AppendPaths(m1: seq<byte>, i: nat, m2: seq<byte>, j: nat, granted: bool) returns (r: array?<byte>)
    requires PathAt(m1, i) && PathAt(m2, j)
    requires Fits(Parse(m1, i), Parse(m2, j))
    ensures r != null <==> granted
    ensures r != null ==> fresh(r) && r.Length == AllocatedSize(Parse(m1, i), Parse(m2, j))
    ensures r != null ==> Filled(r[..], Pieces(Parse(m1, i)), CopiedBytes(Parse(m2, j)))
  {
    hide Blocks, Overwrite, Node.Bytes, Pieces, CopiedBytes, Parse, PathAt, Flat, Filled;
    var size1 := DevicePathSize(m1, i);
    var inst1 := DevicePathInstanceCount(m1, At(i));
    var size2 := DevicePathSize(m2, j);
    r := AllocatePool(size1 * inst1 + size2, granted);
    if r != null {
      var pos := CopyBlocks(r, m1, i, m2, j, size2);
      ghost var blocks := r[..];
      pos := pos - HEADER_SIZE;
      CopyMem(r, pos, END_NODE.Bytes(), 0, HEADER_SIZE);
      assert END_NODE.Bytes()[0..HEADER_SIZE] == END_NODE.Bytes();
      LastMarker(blocks, r[..], Pieces(Parse(m1, i)), CopiedBytes(Parse(m2, j)));
    }
  }

  lemma LastMarker(before: seq<byte>, after: seq<byte>, ps: seq<seq<Node>>, tail: seq<byte>)
    requires HEADER_SIZE <= |Blocks(ps, tail)| <= |before| && before[..|Blocks(ps, tail)|] == Blocks(ps, tail)
    requires after == Overwrite(before, |Blocks(ps, tail)| - HEADER_SIZE, END_NODE.Bytes())
    ensures Filled(after, ps, tail)
  {
    hide Blocks, Node.Bytes;
    var b := Blocks(ps, tail);
    assert after[..|b| - HEADER_SIZE] == before[..|b|][..|b| - HEADER_SIZE];
  }

  method CopyBlocks(r: array<byte>, m1: seq<byte>, i: nat, m2: seq<byte>, j: nat, size2: nat) returns (pos: nat)
    requires PathAt(m1, i) && PathAt(m2, j)
    requires size2 == ReportedSize(Parse(m2, j)) && WrittenSize(Parse(m1, i), Parse(m2, j)) <= r.Length
    modifies r
    ensures HEADER_SIZE <= pos == WrittenSize(Parse(m1, i), Parse(m2, j))
    ensures r[..pos] == Blocks(Pieces(Parse(m1, i)), CopiedBytes(Parse(m2, j)))
  {
    hide Parse, PathAt, Flat, CopiedBytes, Pieces, Piece, Blocks, ReadNode, Node.Bytes;
    ghost var ps, tail := Pieces(Parse(m1, i)), CopiedBytes(Parse(m2, j));
    SourceBytes(m2, j);
    BlocksBounds(ps, tail);
    pos := 0;
    var cur := At(i);
    ghost var done: seq<seq<Node>> := [];
    var start, next, size := DevicePathInstance(m1, cur);
    while start.At?
      invariant start == cur && (cur.At? ==> PathAt(m1, cur.off) && Delivered(m1, cur.off, next, size))
      invariant done + Remaining(m1, cur) == ps
      invariant pos == |Blocks(done, tail)| <= r.Length && r[..pos] == Blocks(done, tail)
      decreases |Remaining(m1, cur)|
    {
      ghost var ns := Piece(Parse(m1, cur.off));
      NextPiece(m1, cur.off, next, size);
      BlockStep(ps, done, ns, Remaining(m1, next), tail);
      pos := CopyBlock(r, pos, m1, start.off, size, m2, j, size2);
      done := done + [ns];
      cur := next;
      start, next, size := DevicePathInstance(m1, cur);
    }
    assert done == ps;
  }

  /** The bytes that a caller gets: those of the appended path, or a copy of the only path there is. */
  ghost predicate AppendedInMemory(m: seq<byte>, m1: seq<byte>, src1: Ptr, m2: seq<byte>, src2: Ptr)
    requires src1.At? || src2.At?
    requires (src1.At? ==> PathAt(m1, src1.off)) && (src2.At? ==> PathAt(m2, src2.off))
  {
    if src1.Null? then m == CopiedBytes(Parse(m2, src2.off))
    else if src2.Null? then m == CopiedBytes(Parse(m1, src1.off))
    else Filled(m, Pieces(Parse(m1, src1.off)), CopiedBytes(Parse(m2, src2.off)))
  }

  /** What is read of them. */
  ghost function AppendResult(m1: seq<byte>, src1: Ptr, m2: seq<byte>, src2: Ptr): Path
    requires src1.At? || src2.At?
    requires (src1.At? ==> PathAt(m1, src1.off)) && (src2.At? ==> PathAt(m2, src2.off))
  {
    if src1.Null? then Parse(m2, src2.off)
    else if src2.Null? then Parse(m1, src1.off)
    else Appended(Parse(m1, src1.off), Parse(m2, src2.off))
  }

  lemma AppendedParses(m: seq<byte>, m1: seq<byte>, src1: Ptr, m2: seq<byte>, src2: Ptr)
    requires src1.At? || src2.At?
    requires (src1.At? ==> PathAt(m1, src1.off)) && (src2.At? ==> PathAt(m2, src2.off))
    requires AppendedInMemory(m, m1, src1, m2, src2) && PlainEnd(AppendResult(m1, src1, m2, src2))
    ensures PathAt(m, 0) && Parse(m, 0) == AppendResult(m1, src1, m2, src2)
  {
    hide Parse, PathAt, CopiedBytes, PathBytes, Filled, Pieces, Piece;
    if src1.At? {
      ParseIsValid(m1, src1.off);
    }
    if src2.At? {
      ParseIsValid(m2, src2.off);
    }
    if src1.At? && src2.At? {
      FilledParses(m, Parse(m1, src1.off), Parse(m2, src2.off));
    } else {
      CopiedIsWhole(AppendResult(m1, src1, m2, src2));
      SpelledParses(m, AppendResult(m1, src1, m2, src2));
    }
  }

  method AppendDevicePath(m1: seq<byte>, src1: Ptr, m2: seq<byte>, src2: Ptr, granted: bool)
    returns (r: array?<byte>)
    requires src1.At? || src2.At?
    requires src1.At? ==> PathAt(m1, src1.off)
    requires src2.At? ==> PathAt(m2, src2.off)
    requires src1.At? && src2.At? ==> Fits(Parse(m1, src1.off), Parse(m2, src2.off))
    ensures r != null <==> granted
    ensures r != null ==> fresh(r) && AppendedInMemory(r[..], m1, src1, m2, src2)
    ensures r != null && PlainEnd(AppendResult(m1, src1, m2, src2)) ==>
      PathAt(r[..], 0) && Parse(r[..], 0) == AppendResult(m1, src1, m2, src2)
  {
    hide Parse, PathAt, Fits, Filled, Appended, Pieces, CopiedBytes;
    if src1.Null? {
      r := DuplicateDevicePath(m2, src2.off, granted);
    } else if src2.Null? {
      r := DuplicateDevicePath(m1, src1.off, granted);
    } else {
      r := AppendPaths(m1, src1.off, m2, src2.off, granted);
    }
    if r != null && PlainEnd(AppendResult(m1, src1, m2, src2)) {
      AppendedParses(r[..], m1, src1, m2, src2);
    }
  }

  /** Builds a path of one node in a scratch buffer and appends that. */
  method AppendDevicePathNode(m1: seq<byte>, src1: Ptr, m2: seq<byte>, j: nat, scratch: bool, granted: bool)
    returns (r: array?<byte>)
    requires NodeAt(m2, j)
    requires src1.At? ==> PathAt(m1, src1.off) && Fits(Parse(m1, src1.off), Terminated(ReadNode(m2, j)))
    ensures r != null <==> scratch && granted
    ensures r != null ==> fresh(r) && var q := Terminated(ReadNode(m2, j));
      && (src1.Null? ==> r[..] == CopiedBytes(q))
      && (src1.At? ==> Filled(r[..], Pieces(Parse(m1, src1.off)), CopiedBytes(q)))
      && (PlainEnd(q) ==> PathAt(r[..], 0)
                          && Parse(r[..], 0) == if src1.Null? then q else Appended(Parse(m1, src1.off), q))
  {
    hide Parse, PathAt, Fits, Filled, ReadNode, Terminated, Pieces, CopiedBytes, Piece;
    r := null;
    var temp := CopyWithEnd(m2, j, scratch);
    if temp != null {
      r := AppendDevicePath(m1, src1, temp[..], At(0), granted);
    }
  }

  /** The scratch path: the node and a terminator. */
  method CopyWithEnd(m: seq<byte>, j: nat, granted: bool) returns (temp: array?<byte>)
    requires NodeAt(m, j)
    ensures temp != null <==> granted
    ensures temp != null ==> fresh(temp) && PathAt(temp[..], 0) && Parse(temp[..], 0) == Terminated(ReadNode(m, j))
  {
    hide Parse, PathAt, Flat, Node.Bytes, Overwrite, Terminated;
    var length := NodeLength(m, j);
    temp := AllocatePool(length + HEADER_SIZE, granted);
    if temp != null {
      CopyMem(temp, 0, m, j, length);
      SetDevicePathEndNode(temp, length);
      ReadNodeBytes(m, j);
      ReadNodeKind(m, j);
      NodeAndEnd(temp[..], ReadNode(m, j));
    }
  }

  // ---------- what appending means ----------

  /** For every pair of paths: the first instance is continued, the further ones come from `q`. */
  lemma AppendedInstances(p: Path, q: Path)
    ensures Instances(Appended(p, q)) == [Piece(p) + Instances(q)[0]] + Instances(q)[1..]
  {
    SplitPrefix(Piece(p), q.body);
  }

  lemma PieceOfSingle(p: Path)
    requires NoEndType(p.body)
    ensures Piece(p) == p.body[..if |p.body| <= NODE_LIMIT then |p.body| else NODE_LIMIT]
    ensures |p.body| <= NODE_LIMIT ==> Piece(p) == p.body
  {
    assert FirstEnd(p.body) == |p.body|;
    assert p.body[..|p.body|] == p.body;
  }

  /**
    * The promise that the second path is appended to each instance of the first
    * is kept if and only if the first has a single instance.
    */
  lemma AppendsToEachInstance(p: Path, q: Path)
    requires Regular(p) && q.Valid() && NoEndType(q.body)
    ensures var each := seq(|Instances(p)|, k requires 0 <= k < |Instances(p)| => Instances(p)[k] + q.body);
            Instances(Appended(p, q)) == each <==> |Instances(p)| == 1
  {
    AppendedInstances(p, q);
    SplitSingle(q.body);
    PiecesAreInstances(p);
    hide Split;
    var each := seq(|Instances(p)|, k requires 0 <= k < |Instances(p)| => Instances(p)[k] + q.body);
    assert Instances(p)[0] == Pieces(p)[0] == Piece(p);
    if |Instances(p)| == 1 {
      assert each == [Piece(p) + q.body];
    }
  }

  /** A node appended to a single-instance path is the last node of that instance. */
  lemma AppendedNode(p: Path, n: Node)
    requires NoEndType(p.body) && |p.body| <= NODE_LIMIT
    ensures Appended(p, Alone(n)) == Path(p.body + [n], END_NODE)
  {
    PieceOfSingle(p);
  }

  /** Appending single-instance paths associates exactly as long as the node limit is kept. */
  lemma AppendAssociates(a: Path, b: Path, c: Path)
    requires NoEndType(a.body) && NoEndType(b.body) && |a.body| <= NODE_LIMIT && |b.body| <= NODE_LIMIT
    ensures Appended(Appended(a, b), c) == Appended(a, Appended(b, c)) <==> |a.body| + |b.body| <= NODE_LIMIT
  {
    PieceOfSingle(a);
    PieceOfSingle(b);
    var ab := Appended(a, b);
    assert NoEndType(ab.body);
    PieceOfSingle(ab);
    Assoc(a.body, b.body, c.body);
  }
}
