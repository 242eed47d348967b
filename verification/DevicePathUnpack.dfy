/**
  * Unpacking: every node is copied to an aligned place, its length rounded up
  * and its type marked.  A first pass sums up the rounded size, a second pass
  * writes it.
  */
module DevicePathUnpack {
  import opened Machine
  import opened Arith
  import opened Bytes
  import opened Seqs
  import opened DevicePath
  import opened DevicePathOps

  /** ALIGN_SIZE: the bytes missing to the next multiple of the alignment. */
  function Pad(a: nat, align: nat): (n: nat)
    requires align > 0
    ensures n < align
    ensures (a + n) % align == 0
    ensures a % align == 0 ==> n == 0
  {
    PadReachesMultiple(a, align);
    if a % align != 0 then align - a % align else 0
  }

  lemma PadReachesMultiple(a: nat, align: nat)
    requires align > 0
    ensures a % align != 0 ==> (a + (align - a % align)) % align == 0
  {
    var q := a / align;
    assert a == q * align + a % align;
    assert a + (align - a % align) == (q + 1) * align;
    ModOfMultiple(q + 1, align);
  }

  /** From an aligned size on, rounding the sum is rounding the node. */
  lemma CumulativeRounding(s: nat, len: nat, align: nat)
    requires align > 0 && s % align == 0
    ensures Pad(s + len, align) == Pad(len, align)
    ensures (s + len + Pad(len, align)) % align == 0
  {
    ModAdd(s, len, align);
  }

  // ---------- what unpacking does to a node list ----------

  function SetUnpacked(typ: byte): (t: byte)
    ensures t >= EFI_DP_TYPE_UNPACKED && t % EFI_DP_TYPE_UNPACKED == typ % EFI_DP_TYPE_UNPACKED
  {
    if typ < EFI_DP_TYPE_UNPACKED then typ + EFI_DP_TYPE_UNPACKED else typ
  }

  function Rounded(n: Node, align: nat): nat
    requires align > 0
  {
    n.Length() + Pad(n.Length(), align)
  }

  /** The same node with the unpacked bit set and zeros up to the next boundary. */
  ghost function UnpackNode(n: Node, align: nat): (u: Node)
    requires align > 0
    ensures u.Length() == Rounded(n, align) && u.Length() % align == 0
    ensures u.typ % EFI_DP_TYPE_UNPACKED == n.typ % EFI_DP_TYPE_UNPACKED && u.sub == n.sub && n.data <= u.data
    ensures u.EndEntire() == n.EndEntire()
    ensures u.typ >= 0x80 && forall k :: |n.data| <= k < |u.data| ==> u.data[k] == 0
  {
    Node(SetUnpacked(n.typ), n.sub, n.data + Zeros(Pad(n.Length(), align)))
  }

  ghost function UnpackAll(ns: seq<Node>, align: nat): seq<Node>
    requires align > 0
  {
    seq(|ns|, k requires 0 <= k < |ns| => UnpackNode(ns[k], align))
  }

  ghost function Unpacked(p: Path, align: nat): Path
    requires align > 0
  {
    Path(UnpackAll(p.body, align), UnpackNode(p.end, align))
  }

  lemma UnpackSnoc(ns: seq<Node>, n: Node, align: nat)
    requires align > 0
    ensures UnpackAll(ns + [n], align) == UnpackAll(ns, align) + [UnpackNode(n, align)]
    ensures Flat(UnpackAll(ns + [n], align)) == Flat(UnpackAll(ns, align)) + UnpackNode(n, align).Bytes()
  {
    FlatConcat(UnpackAll(ns, align), [UnpackNode(n, align)]);
    FlatOne(UnpackNode(n, align));
  }

  /** Every node of an unpacked path starts at a multiple of the alignment. */
  lemma {:induction false} Aligned(ns: seq<Node>, align: nat)
    requires align > 0
    ensures |Flat(UnpackAll(ns, align))| % align == 0
  {
    if ns != [] {
      var init, n := ns[..|ns| - 1], ns[|ns| - 1];
      assert ns == init + [n];
      Aligned(init, align);
      UnpackSnoc(init, n, align);
      ModAdd(|Flat(UnpackAll(init, align))|, Rounded(n, align), align);
    }
  }

  /** Unpacking an unpacked path changes nothing. */
  lemma UnpackIdempotent(p: Path, align: nat)
    requires align > 0
    ensures Unpacked(Unpacked(p, align), align) == Unpacked(p, align)
  {
    UnpackTwice(p.end, align);
    var u := UnpackAll(p.body, align);
    forall k | 0 <= k < |u| ensures UnpackAll(u, align)[k] == u[k] {
      UnpackTwice(p.body[k], align);
    }
  }

  lemma UnpackTwice(n: Node, align: nat)
    requires align > 0
    ensures UnpackNode(UnpackNode(n, align), align) == UnpackNode(n, align)
  {
    var u := UnpackNode(n, align);
    assert Pad(u.Length(), align) == 0;
    assert u.data + Zeros(0) == u.data;
  }

  // ---------- the two passes ----------

  lemma SizeStep(ns: seq<Node>, n: Node, align: nat)
    requires align > 0
    ensures var s := |Flat(UnpackAll(ns, align))| + n.Length();
      s + Pad(s, align) == |Flat(UnpackAll(ns + [n], align))|
  {
    Aligned(ns, align);
    CumulativeRounding(|Flat(UnpackAll(ns, align))|, n.Length(), align);
    UnpackSnoc(ns, n, align);
  }

  /** The node under the walk is the next one of the list. */
  lemma NodeUnderWalk(m: seq<byte>, i: nat, cur: nat, k: nat)
    requires Walked(m, i, cur, k)
    ensures NodeAt(m, cur) && k < |Parse(m, i).Nodes()| && ReadNode(m, cur) == Parse(m, i).Nodes()[k]
    ensures Parse(m, i).Nodes()[..k + 1] == Parse(m, i).Nodes()[..k] + [ReadNode(m, cur)]
    ensures IsEnd(m, cur) ==> Parse(m, i).Nodes()[..k + 1] == Parse(m, i).Nodes()
    ensures !IsEnd(m, cur) ==> Walked(m, i, cur + NodeLength(m, cur), k + 1)
  {
    if IsEnd(m, cur) {
      WalkEnd(m, i, cur, k);
    } else {
      WalkStep(m, i, cur, k);
    }
  }

  /** First pass: the sizes are rounded cumulatively. */
  method UnpackedSize(m: seq<byte>, i: nat, align: nat) returns (size: nat)
    requires PathAt(m, i) && align > 0
    ensures size == |Flat(UnpackAll(Parse(m, i).Nodes(), align))|
  {
    hide Parse, ReadNode, Flat, UnpackAll, PathAt;
    var src := i;
    size := 0;
    ghost var k := 0;
    ghost var ns := Parse(m, i).Nodes();
    WalkStart(m, i);
    assert Flat(UnpackAll(ns[..0], align)) == [] by { UnpackNone(ns, align); }
    while true
      invariant Walked(m, i, src, k)
      invariant size == |Flat(UnpackAll(ns[..k], align))|
      decreases |m| - src
    {
      NodeUnderWalk(m, i, src, k);
      SizeStep(ns[..k], ReadNode(m, src), align);
      size := size + NodeLength(m, src);
      size := size + Pad(size, align);
      k := k + 1;
      if IsEnd(m, src) {
        return;
      }
      src := src + NodeLength(m, src);
    }
  }

  lemma UnpackNone(ns: seq<Node>, align: nat)
    requires align > 0
    ensures Flat(UnpackAll(ns[..0], align)) == []
  {
  }

  /** Copies one node into zeroed memory, rounds its length field and marks its type. */
  method CopyNode(r: array<byte>, dest: nat, m: seq<byte>, src: nat, align: nat) returns (next: nat)
    requires align > 0 && NodeAt(m, src)
    requires dest + Rounded(ReadNode(m, src), align) <= r.Length
    requires forall x :: dest <= x < r.Length ==> r[x] == 0
    modifies r
    ensures next == dest + Rounded(ReadNode(m, src), align)
    ensures r[..next] == old(r[..dest]) + UnpackNode(ReadNode(m, src), align).Bytes()
    ensures forall x :: next <= x < r.Length ==> r[x] == 0
  {
    var size := NodeLength(m, src);
    CopyMem(r, dest, m, src, size);
    ghost var copied, tail := r[..], dest + size;
    SubSlice(copied, dest, m[src..src + size], HEADER_SIZE, size);
    SubSlice(m, src, m[src..src + size], HEADER_SIZE, size);
    size := size + Pad(size, align);
    r[dest + 2] := size % 256;
    r[dest + 3] := size / 256 % 256;
    r[dest] := SetUnpacked(r[dest]);
    next := dest + size;
    hide Overwrite, ReadNode, Pad, Node.Bytes;
    assert r[dest + HEADER_SIZE..tail] == copied[dest + HEADER_SIZE..tail];
    NodeWritten(r[..], dest, m, src, align);
    assert r[..dest] == old(r[..dest]);
  }

  lemma NodeWritten(r: seq<byte>, dest: nat, m: seq<byte>, src: nat, align: nat)
    requires align > 0 && NodeAt(m, src)
    requires dest + Rounded(ReadNode(m, src), align) <= |r|
    requires r[dest] == SetUnpacked(m[src]) && r[dest + 1] == m[src + 1]
    requires r[dest + 2] == Rounded(ReadNode(m, src), align) % 256
    requires r[dest + 3] == Rounded(ReadNode(m, src), align) / 256 % 256
    requires r[dest + HEADER_SIZE..dest + NodeLength(m, src)] == m[src + HEADER_SIZE..src + NodeLength(m, src)]
    requires forall x :: dest + NodeLength(m, src) <= x < |r| ==> r[x] == 0
    ensures r[..dest + Rounded(ReadNode(m, src), align)] == r[..dest] + UnpackNode(ReadNode(m, src), align).Bytes()
  {
    var n, u := ReadNode(m, src), UnpackNode(ReadNode(m, src), align);
    var mid, next := dest + n.Length(), dest + u.Length();
    hide Pad;
    assert r[mid..next] == Zeros(Pad(n.Length(), align));
    assert r[dest + HEADER_SIZE..next] == r[dest + HEADER_SIZE..mid] + r[mid..next];
    assert r[dest..next] == r[dest..dest + HEADER_SIZE] + r[dest + HEADER_SIZE..next];
  }

  /** The nodes still to be written fit into the rest of the buffer. */
  lemma Room(ns: seq<Node>, k: nat, align: nat)
    requires align > 0 && k < |ns|
    ensures |Flat(UnpackAll(ns[..k], align))| + Rounded(ns[k], align) <= |Flat(UnpackAll(ns, align))|
  {
    UnpackSnoc(ns[..k], ns[k], align);
    assert ns[..k + 1] == ns[..k] + [ns[k]];
    assert UnpackAll(ns, align) == UnpackAll(ns[..k + 1], align) + UnpackAll(ns[k + 1..], align);
    FlatConcat(UnpackAll(ns[..k + 1], align), UnpackAll(ns[k + 1..], align));
  }

  /** For every path and every alignment, the second pass writes exactly the bytes the first pass counted. */
  method UnpackDevicePath(m: seq<byte>, i: nat, align: nat, granted: bool) returns (r: array?<byte>)
    requires PathAt(m, i) && align > 0
    ensures r != null <==> granted
    ensures r != null ==> fresh(r) && r[..] == PathBytes(Unpacked(Parse(m, i), align))
  {
    var size := UnpackedSize(m, i, align);
    r := AllocateZeroPool(size, granted);
    if r != null {
      WriteNodes(r, m, i, align);
      UnpackSnoc(Parse(m, i).body, Parse(m, i).end, align);
    }
  }

  method WriteNodes(r: array<byte>, m: seq<byte>, i: nat, align: nat)
    requires PathAt(m, i) && align > 0
    requires r[..] == Zeros(|Flat(UnpackAll(Parse(m, i).Nodes(), align))|)
    modifies r
    ensures r[..] == Flat(UnpackAll(Parse(m, i).Nodes(), align))
  {
    hide Parse, ReadNode, Flat, UnpackAll, PathAt, Node.Bytes;
    ghost var ns := Parse(m, i).Nodes();
    assert forall x :: 0 <= x < r.Length ==> r[x] == r[..][x] == 0;
    var src, dest := i, 0;
    ghost var k := 0;
    WalkStart(m, i);
    UnpackNone(ns, align);
    while true
      invariant Walked(m, i, src, k)
      invariant dest == |Flat(UnpackAll(ns[..k], align))| <= r.Length && r[..dest] == Flat(UnpackAll(ns[..k], align))
      invariant forall x :: dest <= x < r.Length ==> r[x] == 0
      decreases |m| - src
    {
      NodeUnderWalk(m, i, src, k);
      Room(ns, k, align);
      UnpackSnoc(ns[..k], ReadNode(m, src), align);
      dest := CopyNode(r, dest, m, src, align);
      k := k + 1;
      if IsEnd(m, src) {
        assert r[..dest] == r[..];
        return;
      }
      src := src + NodeLength(m, src);
    }
  }

  // ---------- reading an unpacked path ----------

  /** Every rounded length still fits the two length bytes. */
  ghost predicate LengthsFit(p: Path, align: nat)
    requires align > 0
  {
    forall k :: 0 <= k < |p.Nodes()| ==> Rounded(p.Nodes()[k], align) < TWO16
  }

  /** When the lengths fit, the unpacked bytes read back as the marked and padded nodes. */
  lemma UnpackedParses(p: Path, align: nat)
    requires p.Valid() && align > 0 && LengthsFit(p, align)
    ensures var m := PathBytes(Unpacked(p, align)); PathAt(m, 0) && Parse(m, 0) == Unpacked(p, align)
  {
    var u := Unpacked(p, align);
    assert u.Valid() by {
      assert forall k :: 0 <= k < |p.body| ==> p.Nodes()[k] == p.body[k];
      assert p.Nodes()[|p.body|] == p.end;
    }
    SpelledParses(PathBytes(u), u);
  }

  /** A length that no longer fits is rounded to exactly 65536, whose low sixteen bits are zero. */
  lemma OverflowIsExact(n: Node, align: nat)
    requires align > 0 && TWO16 % align == 0 && n.Valid() && Rounded(n, align) >= TWO16
    ensures Rounded(n, align) == TWO16
  {
    hide Pad;
    NextMultiple(Rounded(n, align), TWO16, align);
  }

  /**
    * The exact condition, for the alignments that divide 65536 (4 and 8 among
    * them): the unpacked path can be walked if and only if the lengths fit.
    */
  lemma UnpackedReadable(p: Path, align: nat)
    requires p.Valid() && align > 0 && TWO16 % align == 0
    ensures PathAt(PathBytes(Unpacked(p, align)), 0) <==> LengthsFit(p, align)
  {
    if LengthsFit(p, align) {
      UnpackedParses(p, align);
    } else {
      var m := PathBytes(Unpacked(p, align));
      assert m[0..] == m;
      UnreadableFrom(m, 0, p, align);
    }
  }

  /** A node of 65535 bytes: its rounded length does not fit, and the path cannot be walked. */
  lemma LongNodeUnreadable(data: seq<byte>, align: nat)
    requires |data| == 65531 && (align == 4 || align == 8)
    ensures var p := Path([Node(1, 1, data)], END_NODE);
            p.Valid() && !PathAt(PathBytes(Unpacked(p, align)), 0)
  {
    hide PathBytes, Unpacked;
    var p := Path([Node(1, 1, data)], END_NODE);
    assert Rounded(p.Nodes()[0], align) == TWO16;
    UnpackedReadable(p, align);
  }

  lemma {:induction false} UnreadableFrom(m: seq<byte>, i: nat, p: Path, align: nat)
    requires p.Valid() && align > 0 && TWO16 % align == 0 && !LengthsFit(p, align)
    requires i <= |m| && m[i..] == PathBytes(Unpacked(p, align))
    ensures !PathAt(m, i)
    decreases |p.body|
  {
    hide Node.Bytes, PathAt, Flat, LengthsFit;
    var n := p.Nodes()[0];
    var u, us := UnpackNode(n, align), Unpacked(p, align).Nodes();
    FirstNodeBytes(m, i, us);
    if Rounded(n, align) >= TWO16 {
      OverflowIsExact(n, align);
      NoLength(m, i, u);
    } else {
      NotTheEnd(p, align);
      assert Unpacked(p.From(1), align).Nodes() == us[1..];
      UnreadableFrom(m, i + u.Length(), p.From(1), align);
      UnreadableBehind(m, i, u);
    }
  }

  lemma FirstNodeBytes(m: seq<byte>, i: nat, us: seq<Node>)
    requires us != [] && i <= |m| && m[i..] == Flat(us)
    ensures var j := i + us[0].Length(); j <= |m| && m[i..j] == us[0].Bytes() && m[j..] == Flat(us[1..])
  {
    hide Node.Bytes;
    var l := us[0].Length();
    ConcatParts(us[0].Bytes(), Flat(us[1..]));
    assert m[i..i + l] == m[i..][..l] && m[i + l..] == m[i..][l..];
  }

  lemma NoLength(m: seq<byte>, i: nat, u: Node)
    requires u.Length() == TWO16 && i + u.Length() <= |m| && m[i..i + u.Length()] == u.Bytes()
    ensures !PathAt(m, i)
  {
    assert m[i + 2] == m[i..i + u.Length()][2] == 0 && m[i + 3] == m[i..i + u.Length()][3] == 0;
  }

  lemma UnreadableBehind(m: seq<byte>, i: nat, u: Node)
    requires u.Valid() && !u.EndEntire() && i + u.Length() <= |m| && m[i..i + u.Length()] == u.Bytes()
    requires !PathAt(m, i + u.Length())
    ensures !PathAt(m, i)
  {
    hide Node.Bytes, ReadNode;
    HeaderRead(m, i, u);
    ReadNodeKind(m, i);
  }

  lemma NotTheEnd(p: Path, align: nat)
    requires p.Valid() && align > 0 && !LengthsFit(p, align) && Rounded(p.Nodes()[0], align) < TWO16
    ensures p.body != [] && !p.body[0].EndEntire() && p.From(1).Valid() && !LengthsFit(p.From(1), align)
  {
    var k :| 0 <= k < |p.Nodes()| && Rounded(p.Nodes()[k], align) >= TWO16;
    assert p.From(1).Nodes()[k - 1] == p.Nodes()[k];
  }
}
