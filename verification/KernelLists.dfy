/**
  * The kernel's doubly linked rings: unlike a list with a head, a ring is known by
  * any of its links, and rings are spliced into each other.
  */
module KernelLists {
  import opened Seqs
  import opened LinkList

  lemma ChainConcat(a: seq<ListEntry>, b: seq<ListEntry>)
    requires Chain(a) && Chain(b) && (a != [] && b != [] ==> Linked(a[|a| - 1], b[0]))
    ensures Chain(a + b)
  {
    var s := a + b;
    forall i, j | 0 <= i && j == i + 1 && j < |s| ensures Linked(s[i], s[j]) {
      if j < |a| {
        assert s[i] == a[i] && s[j] == a[j];
      } else if i >= |a| {
        assert s[i] == b[i - |a|] && s[j] == b[j - |a|];
      }
    }
  }

  ghost predicate Apart(a: seq<ListEntry>, b: seq<ListEntry>) {
    forall x :: x in a ==> x !in b
  }

  lemma DistinctConcat(a: seq<ListEntry>, b: seq<ListEntry>)
    requires Distinct(a) && Distinct(b) && Apart(a, b)
    ensures Distinct(a + b)
  {
    var s := a + b;
    forall i, j | 0 <= i < j < |s| ensures s[i] != s[j] {
      if i < |a| <= j {
        assert s[i] in a && s[j] in b;
      }
    }
  }

  method Init(d: ListEntry)
    modifies d
    ensures Ring([d])
  {
    d.flink := d;
    d.blink := d;
  }

  /** Puts the ring of `d2` in front of `d1`. */
  method InsertBefore(d1: ListEntry, d2: ListEntry, ghost a: seq<ListEntry>, ghost b: seq<ListEntry>)
    requires Ring([d1] + a) && Ring([d2] + b) && Apart([d1] + a, [d2] + b)
    modifies d1, d1.blink, d2, d2.blink
    ensures Ring([d1] + a + ([d2] + b))
  {
    ghost var r1, r2 := [d1] + a, [d2] + b;
    assert r1[0] == d1 && r2[0] == d2;
    assert r1[|a|] in r1 && r2[|b|] in r2;
    var e1 := d1.blink;
    var e2 := d2.blink;
    e1.flink := d2;
    d2.blink := e1;
    e2.flink := d1;
    d1.blink := e2;
    ChainConcat(r1, r2);
    DistinctConcat(r1, r2);
  }

  /** Puts the ring of `d2` behind `d1`. */
  method InsertAfter(d1: ListEntry, d2: ListEntry, ghost a: seq<ListEntry>, ghost b: seq<ListEntry>)
    requires Ring([d1] + a) && Ring([d2] + b) && Apart([d1] + a, [d2] + b)
    modifies d1, d1.flink, d2, d2.blink
    ensures Ring([d1] + ([d2] + b) + a)
  {
    Rotate([d1], a);
    ghost var r1, r2 := a + [d1], [d2] + b;
    assert r1[|a|] == d1 && r2[0] == d2;
    assert r1[0] in r1 && r2[|b|] in r2;
    assert Apart(r1, r2);
    var n1 := d1.flink;
    var e2 := d2.blink;
    d1.flink := d2;
    d2.blink := d1;
    e2.flink := n1;
    n1.blink := e2;
    ChainConcat(r1, r2);
    DistinctConcat(r1, r2);
    assert r1 + r2 == a + ([d1] + r2);
    Rotate(a, [d1] + r2);
    assert [d1] + r2 + a == [d1] + ([d2] + b) + a;
  }

  /** Takes a link out of its ring; it is a ring of its own then. */
  method Remove(d: ListEntry, ghost nodes: seq<ListEntry>, ghost k: nat)
    requires Ring(nodes) && k < |nodes| && nodes[k] == d
    modifies d, d.flink, d.blink
    ensures Ring([d])
    ensures |nodes| > 1 ==> Ring(Without(nodes, k))
  {
    ghost var rest := Without(nodes, k);
    EntryLast(nodes, k);
    Around(nodes[k + 1..] + nodes[..k], d);
    assert forall x :: x in rest ==> x in nodes[k + 1..] + nodes[..k];
    RemoveEntryList(d, nodes, k);
    d.flink := d;
    d.blink := d;
  }
}
