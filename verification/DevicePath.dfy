/**
  * The byte format of a device path (section 9.3.1 of UEFI 2.4): a run of
  * self-delimiting nodes, cut into instances by end-type nodes and closed by an
  * end-entire node.  This module holds the format, its parser, and the laws of
  * the node lists; the routines that walk and build paths are in DevicePathOps.
  */
module DevicePath {
  import opened Machine
  import opened Bytes
  import opened Seqs

  const EFI_DP_TYPE_UNPACKED := 0x80
  const END_DEVICE_PATH_TYPE := 0x7f
  const END_ENTIRE_SUBTYPE := 0xff
  const END_INSTANCE_SUBTYPE := 0x01
  const HEADER_SIZE := 4

  /** One node: the raw type byte, the subtype, and what follows the four header bytes. */
  datatype Node = Node(typ: byte, sub: byte, data: seq<byte>) {

    function Length(): (n: nat)
      ensures n >= HEADER_SIZE
    {
      HEADER_SIZE + |data|
    }

    /** The length has to fit the two length bytes. */
    predicate Valid() {
      Length() < TWO16
    }

    /** The type is compared without its unpacked bit. */
    predicate EndType() {
      typ == END_DEVICE_PATH_TYPE || typ == END_DEVICE_PATH_TYPE + EFI_DP_TYPE_UNPACKED
    }

    predicate EndEntire() {
      EndType() && sub == END_ENTIRE_SUBTYPE
    }

    /** The bytes of the node; the length field keeps sixteen bits of the length. */
    function Bytes(): (b: seq<byte>)
      ensures |b| == Length()
    {
      [typ, sub, Length() % 256, Length() / 256 % 256] + data
    }
  }

  const END_NODE := Node(END_DEVICE_PATH_TYPE, END_ENTIRE_SUBTYPE, [])
  const END_INSTANCE_NODE := Node(END_DEVICE_PATH_TYPE, END_INSTANCE_SUBTYPE, [])

  /** The header in bytes: type, subtype, and the length with its low byte first. */
  lemma HeaderLayout(n: Node)
    requires n.Valid()
    ensures var b := n.Bytes();
            && b[0] == n.typ && b[1] == n.sub && b[4..] == n.data
            && b[2] as int + 256 * (b[3] as int) == |b| == 4 + |n.data|
    ensures END_NODE.Bytes() == [0x7F, 0xFF, 4, 0] && END_INSTANCE_NODE.Bytes() == [0x7F, 1, 4, 0]
  {
  }

  ghost predicate ValidNodes(ns: seq<Node>) {
    forall i :: 0 <= i < |ns| ==> ns[i].Valid()
  }

  ghost predicate NoEndEntire(ns: seq<Node>) {
    forall i :: 0 <= i < |ns| ==> !ns[i].EndEntire()
  }

  /** A device path as a list: the nodes before the end-entire node, and that node. */
  datatype Path = Path(body: seq<Node>, end: Node) {

    ghost predicate Valid() {
      ValidNodes(body) && NoEndEntire(body) && end.Valid() && end.EndEntire()
    }

    ghost function Nodes(): seq<Node> {
      body + [end]
    }

    /** The path after its first `k` nodes. */
    ghost function From(k: nat): Path
      requires k <= |body|
    {
      Path(body[k..], end)
    }
  }

  /** The bytes of a node list. */
  ghost function Flat(ns: seq<Node>): seq<byte> {
    if ns == [] then [] else ns[0].Bytes() + Flat(ns[1..])
  }

  ghost function PathBytes(p: Path): seq<byte> {
    Flat(p.Nodes())
  }

  lemma {:induction false} FlatConcat(a: seq<Node>, b: seq<Node>)
    ensures Flat(a + b) == Flat(a) + Flat(b)
  {
    hide Node.Bytes;
    if a == [] {
      assert a + b == b;
    } else {
      FlatConcat(a[1..], b);
      TailOfConcat(a, b);
      Assoc(a[0].Bytes(), Flat(a[1..]), Flat(b));
    }
  }

  lemma FlatOne(n: Node)
    ensures Flat([n]) == n.Bytes()
  {
    assert Flat([n]) == n.Bytes() + Flat([]);
  }

  // ---------- reading memory ----------

  /** A node header starts at `i` and the node it announces lies inside the memory. */
  predicate NodeAt(m: seq<byte>, i: nat) {
    i + HEADER_SIZE <= |m| && NodeLength(m, i) >= HEADER_SIZE && i + NodeLength(m, i) <= |m|
  }

  function NodeLength(m: seq<byte>, i: nat): nat
    requires i + HEADER_SIZE <= |m|
  {
    m[i + 2] + 256 * (m[i + 3] as int)
  }

  /** The type byte is compared without its unpacked bit. */
  predicate IsEndType(m: seq<byte>, i: nat)
    requires i + HEADER_SIZE <= |m|
  {
    m[i] % EFI_DP_TYPE_UNPACKED == END_DEVICE_PATH_TYPE
  }

  predicate IsEnd(m: seq<byte>, i: nat)
    requires i + HEADER_SIZE <= |m|
  {
    IsEndType(m, i) && m[i + 1] == END_ENTIRE_SUBTYPE
  }

  function ReadNode(m: seq<byte>, i: nat): (n: Node)
    requires NodeAt(m, i)
    ensures n.Length() == NodeLength(m, i)
  {
    Node(m[i], m[i + 1], m[i + 4..i + NodeLength(m, i)])
  }

  lemma ReadNodeBytes(m: seq<byte>, i: nat)
    requires NodeAt(m, i)
    ensures ReadNode(m, i).Bytes() == m[i..i + NodeLength(m, i)]
  {
  }

  lemma ReadNodeKind(m: seq<byte>, i: nat)
    requires NodeAt(m, i)
    ensures ReadNode(m, i).Valid()
    ensures ReadNode(m, i).EndType() == IsEndType(m, i) && ReadNode(m, i).EndEntire() == IsEnd(m, i)
  {
  }

  /** The memory from `i` on starts with a complete device path. */
  ghost predicate PathAt(m: seq<byte>, i: nat)
    decreases |m| - i
  {
    NodeAt(m, i) && (IsEnd(m, i) || PathAt(m, i + NodeLength(m, i)))
  }

  ghost function Parse(m: seq<byte>, i: nat): Path
    requires PathAt(m, i)
    decreases |m| - i
  {
    var n := ReadNode(m, i);
    if IsEnd(m, i) then
      Path([], n)
    else
      var rest := Parse(m, i + NodeLength(m, i));
      Path([n] + rest.body, rest.end)
  }

  lemma {:induction false} ParseIsValid(m: seq<byte>, i: nat)
    requires PathAt(m, i)
    ensures Parse(m, i).Valid()
    decreases |m| - i
  {
    ReadNodeKind(m, i);
    if !IsEnd(m, i) {
      ParseIsValid(m, i + NodeLength(m, i));
    }
  }

  /** What was parsed is what is there: the parsed path spells out the memory it was read from. */
  lemma {:induction false} ParseIsFaithful(m: seq<byte>, i: nat)
    requires PathAt(m, i)
    ensures var b := PathBytes(Parse(m, i)); i + |b| <= |m| && m[i..i + |b|] == b
    decreases |m| - i
  {
    var p := Parse(m, i);
    var n := ReadNode(m, i);
    ReadNodeBytes(m, i);
    if IsEnd(m, i) {
      assert p.Nodes() == [n];
      FlatOne(n);
    } else {
      var j := i + NodeLength(m, i);
      ParseIsFaithful(m, j);
      assert p.Nodes() == [n] + Parse(m, j).Nodes();
      assert p.Nodes()[1..] == Parse(m, j).Nodes();
    }
  }

  /**
    * Self-delimitation: wherever the bytes of a path stand, whatever comes
    * before and after, the parser gives that path back.
    */
  lemma {:induction false} ParseUndoesEncoding(m: seq<byte>, i: nat, p: Path)
    requires p.Valid()
    requires i + |PathBytes(p)| <= |m| && m[i..i + |PathBytes(p)|] == PathBytes(p)
    ensures PathAt(m, i) && Parse(m, i) == p
    decreases |p.body|, 1
  {
    hide Node.Bytes;
    var n, ns := p.Nodes()[0], p.Nodes()[1..];
    var b := PathBytes(p);
    var l, j := n.Length(), i + n.Length();
    assert m[i..j] == n.Bytes() && m[j..i + |b|] == Flat(ns) by {
      ConcatParts(n.Bytes(), Flat(ns));
      SubSlice(m, i, b, 0, l);
      SubSlice(m, i, b, l, |b|);
    }
    HeaderRead(m, i, n);
    if p.body != [] {
      ParseBody(m, i, p, j);
    }
  }

  lemma {:induction false} ParseBody(m: seq<byte>, i: nat, p: Path, j: nat)
    requires p.Valid() && p.body != [] && NodeAt(m, i) && ReadNode(m, i) == p.body[0] && j == i + NodeLength(m, i)
    requires j + |Flat(p.Nodes()[1..])| <= |m|
    requires m[j..j + |Flat(p.Nodes()[1..])|] == Flat(p.Nodes()[1..])
    ensures PathAt(m, i) && Parse(m, i) == p
    decreases |p.body|, 0
  {
    var p' := p.From(1);
    TailOfConcat(p.body, [p.end]);
    ParseUndoesEncoding(m, j, p');
    ReadNodeKind(m, i);
    HeadTail(p.body);
  }

  lemma HeaderRead(m: seq<byte>, i: nat, n: Node)
    requires n.Valid()
    requires i + n.Length() <= |m| && m[i..i + n.Length()] == n.Bytes()
    ensures NodeAt(m, i) && NodeLength(m, i) == n.Length() && ReadNode(m, i) == n
  {
    var b := n.Bytes();
    SubSlice(m, i, b, 4, |b|);
    assert b[4..|b|] == n.data;
    forall k | 0 <= k < 4 ensures m[i + k] == b[k] {
      assert m[i..i + |b|][k] == m[i + k];
    }
    assert m[i] == b[0] && m[i + 1] == b[1] && m[i + 2] == b[2] && m[i + 3] == b[3];
  }

  // ---------- instances ----------

  /** The instances of a node list: cut at every end-type node, which is dropped. */
  ghost function Split(ns: seq<Node>): (parts: seq<seq<Node>>)
    ensures parts != []
  {
    if ns == [] then [[]]
    else if ns[0].EndType() then [[]] + Split(ns[1..])
    else Extend(ns[0], Split(ns[1..]))
  }

  /** The node joins the first of the parts. */
  ghost function Extend(n: Node, parts: seq<seq<Node>>): (r: seq<seq<Node>>)
    requires parts != []
    ensures |r| == |parts| && r[0] == [n] + parts[0] && r[1..] == parts[1..]
  {
    [[n] + parts[0]] + parts[1..]
  }

  /** An end-type node between two lists puts their instances one after the other. */
  lemma {:induction false} SplitConcat(a: seq<Node>, sep: Node, b: seq<Node>)
    requires sep.EndType()
    ensures Split(a + [sep] + b) == Split(a) + Split(b)
  {
    if a == [] {
      assert (a + [sep] + b)[1..] == b;
    } else {
      var n, t := a[0], a[1..];
      SplitConcat(t, sep, b);
      TailOfConcat(a, [sep]);
      TailOfConcat(a + [sep], b);
      if n.EndType() {
        Assoc([[]], Split(t), Split(b));
      } else {
        ExtendConcat(n, Split(t), Split(b));
      }
    }
  }

  lemma ExtendConcat(n: Node, a: seq<seq<Node>>, b: seq<seq<Node>>)
    requires a != []
    ensures Extend(n, a + b) == Extend(n, a) + b
  {
  }

  ghost predicate NoEndType(ns: seq<Node>) {
    forall i :: 0 <= i < |ns| ==> !ns[i].EndType()
  }

  /** A list without end-type nodes in front merges into the first instance of what follows. */
  lemma {:induction false} SplitPrefix(a: seq<Node>, b: seq<Node>)
    requires NoEndType(a)
    ensures Split(a + b) == [a + Split(b)[0]] + Split(b)[1..]
  {
    if a == [] {
      assert a + b == b && a + Split(b)[0] == Split(b)[0];
    } else {
      SplitPrefix(a[1..], b);
      TailOfConcat(a, b);
      HeadTail(a);
      Assoc([a[0]], a[1..], Split(b)[0]);
    }
  }

  lemma SplitSingle(a: seq<Node>)
    requires NoEndType(a)
    ensures Split(a) == [a]
  {
    SplitPrefix(a, []);
    assert a + [] == a;
  }

  /** The position of the first end-type node, or the length of the list. */
  ghost function FirstEnd(ns: seq<Node>): (k: nat)
    ensures k <= |ns|
    ensures forall i :: 0 <= i < k ==> !ns[i].EndType()
    ensures k < |ns| ==> ns[k].EndType()
  {
    if ns == [] || ns[0].EndType() then 0 else 1 + FirstEnd(ns[1..])
  }

  /** The first instance is the part before the first end-type node. */
  lemma {:induction false} SplitFirst(ns: seq<Node>)
    ensures var k := FirstEnd(ns);
      && Split(ns)[0] == ns[..k]
      && Split(ns)[1..] == if k < |ns| then Split(ns[k + 1..]) else []
  {
    var k := FirstEnd(ns);
    if ns != [] && !ns[0].EndType() {
      SplitFirst(ns[1..]);
      TakeOfTail(ns, k);
      if k < |ns| {
        TakeOfTail(ns, k + 1);
      }
    }
  }

  // ---------- what the instance iterator delivers ----------

  /** `Count > 01000` is an octal bound: the walk gives up at the 514th node. */
  const NODE_LIMIT := 513

  ghost function StopIndex(p: Path): (k: nat)
    ensures k <= |p.body|
  {
    var k := FirstEnd(p.body);
    if k <= NODE_LIMIT then k else NODE_LIMIT
  }

  /** The nodes that one call hands out. */
  ghost function Piece(p: Path): seq<Node> {
    p.body[..StopIndex(p)]
  }

  /** The walk did not stop at a node with the end-entire subtype. */
  ghost predicate HasMore(p: Path) {
    StopIndex(p) < |p.body| && p.body[StopIndex(p)].sub != END_ENTIRE_SUBTYPE
  }

  /** The path on which the next call continues. */
  ghost function Rest(p: Path): (q: Path)
    requires HasMore(p)
    ensures |q.body| < |p.body|
  {
    p.From(StopIndex(p) + 1)
  }

  /** Everything that repeated calls hand out. */
  ghost function Pieces(p: Path): (ps: seq<seq<Node>>)
    ensures ps != []
    decreases |p.body|
  {
    if HasMore(p) then [Piece(p)] + Pieces(Rest(p)) else [Piece(p)]
  }

  ghost function Instances(p: Path): seq<seq<Node>> {
    Split(p.body)
  }

  ghost predicate WithinLimit(parts: seq<seq<Node>>) {
    forall k :: 0 <= k < |parts| ==> |parts[k]| <= NODE_LIMIT
  }

  /**
    * The iterator delivers exactly the instances of the path if and only if no
    * instance has more than 513 nodes.
    */
  lemma {:induction false} PiecesAreInstances(p: Path)
    requires p.Valid()
    ensures Pieces(p) == Instances(p) <==> WithinLimit(Instances(p))
    ensures WithinLimit(Instances(p)) <==> forall k :: 0 <= k < |Instances(p)| ==> |Instances(p)[k]| <= 513
    decreases |p.body|
  {
    SplitFirst(p.body);
    var parts := Instances(p);
    var k := FirstEnd(p.body);
    HeadTail(parts);
    hide Split, FirstEnd;
    if k > NODE_LIMIT {
      assert |Piece(p)| == NODE_LIMIT && Pieces(p)[0] == Piece(p);
    } else if k < |p.body| {
      assert !p.body[k].EndEntire();
      PiecesAreInstances(Rest(p));
      ConsEqual(Piece(p), Pieces(Rest(p)), Instances(Rest(p)));
      LimitOfTail(parts);
    }
  }

  lemma LimitOfTail(parts: seq<seq<Node>>)
    requires parts != []
    ensures WithinLimit(parts) <==> |parts[0]| <= NODE_LIMIT && WithinLimit(parts[1..])
  {
    assert forall j :: 1 <= j < |parts| ==> parts[j] == parts[1..][j - 1];
  }

  /** Ordinary nodes in a row. */
  function Plain(n: nat): (ns: seq<Node>)
    ensures |ns| == n && forall i :: 0 <= i < n ==> ns[i] == Node(1, 1, [])
  {
    seq(n, _ => Node(1, 1, []))
  }

  lemma PlainPath(n: nat)
    ensures Path(Plain(n), END_NODE).Valid() && Split(Plain(n)) == [Plain(n)]
  {
    SplitFirst(Plain(n));
    HeadTail(Split(Plain(n)));
    assert Plain(n)[..n] == Plain(n);
  }

  /** One instance that is too long, from 514 nodes on: the iterator delivers several pieces. */
  lemma LongInstanceIsCut(n: nat)
    requires n > 513
    ensures var p := Path(Plain(n), END_NODE);
            p.Valid() && |Instances(p)| == 1 && |Pieces(p)| > 1 && Pieces(p)[0] == Plain(n)[..513]
  {
    var p := Path(Plain(n), END_NODE);
    PlainPath(n);
    hide Plain, Split, FirstEnd;
    assert FirstEnd(p.body) == n;
    assert HasMore(p);
  }
}
