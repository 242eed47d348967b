/** Comparing a multi-instance path with a single path, and copying one instance. */
module DevicePathMatch {
  import opened Bytes
  import opened Seqs
  import opened DevicePath
  import opened DevicePathOps

  /** The bytes `b` stand in `s` from `j` on. */
  ghost predicate Stands(s: seq<byte>, j: nat, b: seq<byte>) {
    j + |b| <= |s| && s[j..j + |b|] == b
  }

  /** Node for node a prefix. */
  ghost predicate Leads(a: seq<Node>, b: seq<Node>) {
    a <= b
  }

  ghost predicate Ordinary(ns: seq<Node>) {
    ValidNodes(ns) && NoEndType(ns)
  }

  lemma OrdinaryStep(ns: seq<Node>)
    requires Ordinary(ns) && ns != []
    ensures ns[0].Valid() && !ns[0].EndType() && Ordinary(ns[1..])
  {
  }

  /** Different nodes have different bytes, and the difference shows inside both. */
  lemma NodesDiffer(a: Node, b: Node) returns (t: nat)
    requires a.Valid() && b.Valid() && a != b
    ensures t < a.Length() && t < b.Length() && a.Bytes()[t] != b.Bytes()[t]
    ensures a.typ != b.typ ==> t == 0
  {
    if a.typ != b.typ {
      t := 0;
    } else if a.sub != b.sub {
      t := 1;
    } else if a.Length() != b.Length() {
      t := if a.Length() % 256 != b.Length() % 256 then 2 else 3;
    } else {
      var k :| 0 <= k < |a.data| && a.data[k] != b.data[k];
      t := HEADER_SIZE + k;
    }
  }

  /** The bytes of the two lists differ at `t`, no later than the type byte of the first end-type node of `xs`. */
  ghost predicate DifferEarly(ns: seq<Node>, xs: seq<Node>, t: nat) {
    && t < |Flat(ns)| && t < |Flat(xs)| && Flat(ns)[t] != Flat(xs)[t]
    && t <= |Flat(xs[..FirstEnd(xs)])|
  }

  /**
    * Self-delimitation: a run of ordinary nodes that is not, node for node, a
    * prefix of a terminated list differs from it in a byte no later than the
    * type byte of the list's first end-type node.
    */
  lemma {:induction false} MismatchShowsEarly(ns: seq<Node>, xs: seq<Node>) returns (t: nat)
    requires Ordinary(ns) && ValidNodes(xs) && FirstEnd(xs) < |xs| && !Leads(ns, xs)
    ensures DifferEarly(ns, xs, t)
  {
    var n, x := ns[0], xs[0];
    if n != x {
      t := NodesDiffer(n, x);
      FirstNodesDiffer(ns, xs, t);
    } else {
      assert !Leads(ns[1..], xs[1..]) by {
        HeadTail(ns);
        HeadTail(xs);
      }
      var t' := MismatchShowsEarly(ns[1..], xs[1..]);
      t := n.Length() + t';
      DifferLater(ns, xs, t');
    }
  }

  lemma FirstNodesDiffer(ns: seq<Node>, xs: seq<Node>, t: nat)
    requires ns != [] && xs != [] && !ns[0].EndType()
    requires t < ns[0].Length() && t < xs[0].Length() && ns[0].Bytes()[t] != xs[0].Bytes()[t]
    requires ns[0].typ != xs[0].typ ==> t == 0
    ensures DifferEarly(ns, xs, t)
  {
    hide Node.Bytes;
    if !xs[0].EndType() {
      var f := xs[..FirstEnd(xs)];
      assert f[0] == xs[0];
    }
  }

  lemma DifferLater(ns: seq<Node>, xs: seq<Node>, t: nat)
    requires ns != [] && xs != [] && ns[0] == xs[0] && !xs[0].EndType() && DifferEarly(ns[1..], xs[1..], t)
    ensures DifferEarly(ns, xs, ns[0].Length() + t)
  {
    hide Node.Bytes;
    var b, k := ns[0].Bytes(), FirstEnd(xs);
    assert k == 1 + FirstEnd(xs[1..]);
    hide FirstEnd;
    assert xs[..k][0] == xs[0] && xs[..k][1..] == xs[1..][..k - 1];
    assert Flat(ns) == b + Flat(ns[1..]) && Flat(xs) == b + Flat(xs[1..]);
    assert Flat(xs[..k]) == b + Flat(xs[1..][..k - 1]);
    hide Flat;
  }

  /** The comparison that the matcher makes, for one piece. */
  lemma PieceComparison(m: seq<byte>, i: nat, s: seq<byte>, j: nat, ns: seq<Node>)
    requires PathAt(m, i) && Ordinary(ns) && Stands(s, j, Flat(ns))
    ensures Comparable(m, i, s, j, |Flat(ns)|)
    ensures SameBytes(m, i, s, j, |Flat(ns)|) <==> Leads(ns, Parse(m, i).body)
  {
    var p := Parse(m, i);
    if Leads(ns, p.body) {
      PrefixStands(m, i, ns);
    } else {
      ParseIsValid(m, i);
      ParseIsFaithful(m, i);
      EndsInList(p, ns);
      var t := MismatchShowsEarly(ns, p.Nodes());
      hide Flat, Parse, PathAt, Node.Bytes, FirstEnd;
      DifferInMemory(m, i, PathBytes(p), s, j, Flat(ns), t);
      NotSame(m, i, s, j, |Flat(ns)|, t);
    }
  }

  lemma EndsInList(p: Path, ns: seq<Node>)
    requires p.Valid() && Ordinary(ns) && !Leads(ns, p.body)
    ensures ValidNodes(p.Nodes()) && FirstEnd(p.Nodes()) < |p.Nodes()| && !Leads(ns, p.Nodes())
  {
    hide FirstEnd;
    var xs := p.Nodes();
    assert xs[|p.body|] == p.end;
  }

  lemma DifferInMemory(m: seq<byte>, i: nat, a: seq<byte>, s: seq<byte>, j: nat, b: seq<byte>, t: nat)
    requires Stands(m, i, a) && Stands(s, j, b) && t < |a| && t < |b| && a[t] != b[t]
    ensures DifferAt(m, i, s, j, t)
  {
    assert m[i..i + |a|][t] == m[i + t] && s[j..j + |b|][t] == s[j + t];
  }

  lemma NotSame(m: seq<byte>, i: nat, s: seq<byte>, j: nat, len: nat, t: nat)
    requires t < len && DifferAt(m, i, s, j, t)
    ensures !SameBytes(m, i, s, j, len)
  {
    assert i + len <= |m| && j + len <= |s| ==> m[i..i + len][t] == m[i + t] && s[j..j + len][t] == s[j + t];
  }

  lemma PrefixStands(m: seq<byte>, i: nat, ns: seq<Node>)
    requires PathAt(m, i) && Leads(ns, Parse(m, i).body)
    ensures Stands(m, i, Flat(ns))
  {
    var p := Parse(m, i);
    ParseIsFaithful(m, i);
    hide Flat, Parse, PathAt;
    var rest := p.body[|ns|..] + [p.end];
    assert p.Nodes() == ns + rest;
    FlatConcat(ns, rest);
    ConcatParts(Flat(ns), Flat(rest));
    SubSlice(m, i, PathBytes(p), 0, |Flat(ns)|);
  }

  /** Some piece of the multi-instance path is, node for node, a prefix of the single path. */
  ghost predicate SomePrefix(ps: seq<seq<Node>>, body: seq<Node>) {
    exists k :: 0 <= k < |ps| && Leads(ps[k], body)
  }

  lemma SomePrefixSnoc(ps: seq<seq<Node>>, done: seq<seq<Node>>, ns: seq<Node>, rest: seq<seq<Node>>, body: seq<Node>)
    requires ps == done + ([ns] + rest)
    ensures ps == (done + [ns]) + rest
    ensures Leads(ns, body) ==> SomePrefix(ps, body)
    ensures !SomePrefix(done, body) && !Leads(ns, body) ==> !SomePrefix(done + [ns], body)
  {
    Assoc(done, [ns], rest);
    assert ps[|done|] == ns;
  }

  method LibMatchDevicePaths(mm: seq<byte>, multi: Ptr, ms: seq<byte>, single: Ptr) returns (found: bool)
    requires (multi.At? ==> PathAt(mm, multi.off)) && (single.At? ==> PathAt(ms, single.off))
    ensures multi.Null? || single.Null? ==> !found
    ensures multi.At? && single.At? ==>
      (found <==> SomePrefix(Pieces(Parse(mm, multi.off)), Parse(ms, single.off).body))
  {
    if multi.Null? || single.Null? {
      return false;
    }
    hide Parse, PathAt, Flat, Pieces, Piece, Delivered, Stands, Ordinary, Leads, SomePrefix, Comparable, SameBytes;
    ghost var ps, body := Pieces(Parse(mm, multi.off)), Parse(ms, single.off).body;
    ghost var done: seq<seq<Node>> := [];
    var cur := multi;
    var inst, next, size := DevicePathInstance(mm, cur);
    assert !SomePrefix(done, body) by { NonePrefix(body); }
    while inst.At?
      invariant inst == cur && (cur.At? ==> PathAt(mm, cur.off) && Delivered(mm, cur.off, next, size))
      invariant done + Remaining(mm, cur) == ps
      invariant !SomePrefix(done, body)
      decreases |Remaining(mm, cur)|
    {
      ghost var ns := Piece(Parse(mm, cur.off));
      NextPiece(mm, cur.off, next, size);
      PieceInMemory(mm, cur.off, next, size);
      SomePrefixSnoc(ps, done, ns, Remaining(mm, next), body);
      PieceComparison(ms, single.off, mm, cur.off, ns);
      var equal := CompareMem(ms, single.off, mm, inst.off, size);
      if equal {
        return true;
      }
      done := done + [ns];
      cur := next;
      inst, next, size := DevicePathInstance(mm, cur);
    }
    assert done == ps;
    return false;
  }

  lemma NonePrefix(body: seq<Node>)
    ensures !SomePrefix([], body)
  {
  }

  /** A piece in memory. */
  lemma PieceInMemory(m: seq<byte>, i: nat, next: Ptr, size: nat)
    requires PathAt(m, i) && Delivered(m, i, next, size)
    ensures var ns := Piece(Parse(m, i)); Ordinary(ns) && size == |Flat(ns)| && Stands(m, i, Flat(ns))
  {
    hide Parse, PathAt, Flat, Piece, Ordinary;
    ParseIsValid(m, i);
    PieceOrdinary(Parse(m, i));
  }

  lemma PieceOrdinary(p: Path)
    requires p.Valid()
    ensures Ordinary(Piece(p))
  {
    hide FirstEnd;
  }

  // ---------- copying one instance ----------

  /** What the copy of the first instance reads back as: its first node only. */
  ghost function FirstNodeOnly(p: Path): Path
    requires Piece(p) != []
  {
    Alone(Piece(p)[0])
  }

  /** The end node is written behind the first node of the copy. */
  method LibDuplicateDevicePathInstance(m: seq<byte>, at: Ptr, granted: bool) returns (r: array?<byte>)
    requires at.At? ==> PathAt(m, at.off)
    ensures r != null <==> at.At? && Piece(Parse(m, at.off)) != [] && granted
    ensures r != null ==> fresh(r) && PathAt(r[..], 0) && Parse(r[..], 0) == FirstNodeOnly(Parse(m, at.off))
  {
    hide Parse, PathAt, Flat, ReadNode, Node.Bytes, Overwrite, Ordinary, Piece;
    r := null;
    var inst, next, size := DevicePathInstance(m, at);
    if at.Null? {
      return;
    }
    PieceInMemory(m, at.off, next, size);
    ghost var ns := Piece(Parse(m, at.off));
    FirstOrdinary(ns);
    if size != 0 {
      r := AllocatePool(size + HEADER_SIZE, granted);
    }
    if r != null {
      CopyMem(r, 0, m, inst.off, size);
      CopiedHeader(r[..], ns);
      var temp := NodeLength(r[..], 0);
      SetDevicePathEndNode(r, temp);
      NodeAndEnd(r[..], ns[0]);
    }
  }

  lemma FirstOrdinary(ns: seq<Node>)
    requires Ordinary(ns)
    ensures |Flat(ns)| == 0 <==> ns == []
    ensures ns != [] ==> ns[0].Valid() && !ns[0].EndEntire()
  {
  }

  lemma PrefixBytes(s: seq<byte>, j: nat, ns: seq<Node>)
    requires ns != [] && Stands(s, j, Flat(ns))
    ensures Stands(s, j, ns[0].Bytes()) && ns[0].Length() <= |Flat(ns)|
  {
    ConcatParts(ns[0].Bytes(), Flat(ns[1..]));
    SubSlice(s, j, Flat(ns), 0, ns[0].Length());
  }

  lemma CopiedHeader(r: seq<byte>, ns: seq<Node>)
    requires Ordinary(ns) && ns != [] && |Flat(ns)| <= |r| && r[0..|Flat(ns)|] == Flat(ns)
    ensures NodeAt(r, 0) && NodeLength(r, 0) == ns[0].Length() <= |Flat(ns)|
    ensures r[..ns[0].Length()] == ns[0].Bytes()
  {
    OrdinaryStep(ns);
    PrefixBytes(r, 0, ns);
    HeaderRead(r, 0, ns[0]);
  }

  /** The copy is the whole instance if and only if the instance is a single node. */
  lemma DuplicateIsWhole(p: Path)
    requires Piece(p) != []
    ensures FirstNodeOnly(p) == Path(Piece(p), END_NODE) <==> |Piece(p)| == 1
  {
    assert [Piece(p)[0]] == Piece(p)[..1];
    assert |Piece(p)| == 1 ==> Piece(p)[..1] == Piece(p);
  }
}
