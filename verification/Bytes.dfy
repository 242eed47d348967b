/**
  * Raw memory: bytes, little-endian words, and the two block operations
  * (copying and comparing) that the library's routines are written with.
  */
module Bytes {
  import opened Seqs

  type byte = x: int | 0 <= x < 256

  /** A sequence of `n` zero bytes. */
  function Zeros(n: nat): (z: seq<byte>)
    ensures |z| == n
    ensures forall i :: 0 <= i < n ==> z[i] == 0
  {
    seq(n, _ => 0)
  }

  /** A pool request, which may or may not be granted; nothing is known about the contents of a fresh buffer. */
  method AllocatePool(size: nat, granted: bool) returns (p: array?<byte>)
    ensures p != null <==> granted
    ensures p != null ==> fresh(p) && p.Length == size
  {
    if granted {
      p := new byte[size];
    } else {
      p := null;
    }
  }

  /** A pool request whose buffer is cleared with a byte loop. */
  method AllocateZeroPool(size: nat, granted: bool) returns (p: array?<byte>)
    ensures p != null <==> granted
    ensures p != null ==> fresh(p) && p[..] == Zeros(size)
  {
    p := AllocatePool(size, granted);
    if p != null {
      for k := 0 to size
        invariant forall i :: 0 <= i < k ==> p[i] == 0
      {
        p[k] := 0;
      }
    }
  }

  /** Copies `len` bytes of `src` into `dst`; the two do not overlap. */
  method CopyMem(dst: array<byte>, at: nat, src: seq<byte>, from: nat, len: nat)
    requires at + len <= dst.Length && from + len <= |src|
    modifies dst
    ensures dst[..] == Overwrite(old(dst[..]), at, src[from..from + len])
    ensures dst[..at + len] == old(dst[..at]) + src[from..from + len]
    ensures dst[at..at + len] == src[from..from + len]
  {
    for k := 0 to len
      invariant forall i :: 0 <= i < dst.Length ==>
        dst[i] == if at <= i < at + k then src[from + i - at] else old(dst[i])
    {
      dst[at + k] := src[from + k];
    }
  }

  /** Copies within one buffer: the direction of the copy keeps it right however the two stretches overlap. */
  method CopyWithin(m: array<byte>, at: nat, from: nat, len: nat)
    requires at + len <= m.Length && from + len <= m.Length
    modifies m
    ensures m[..] == Overwrite(old(m[..]), at, old(m[from..from + len]))
  {
    if from == at {
      return;
    }
    if from < at < from + len {
      CopyFromEnd(m, at, from, len);
    } else {
      CopyFromStart(m, at, from, len);
    }
  }

  method CopyFromEnd(m: array<byte>, at: nat, from: nat, len: nat)
    requires from <= at && at + len <= m.Length
    modifies m
    ensures m[..] == Overwrite(old(m[..]), at, old(m[from..from + len]))
  {
    ghost var b := m[..];
    for k := len downto 0
      invariant forall i :: 0 <= i < at + k ==> m[i] == b[i]
      invariant forall i :: at + k <= i < at + len ==> m[i] == b[from + i - at]
      invariant forall i :: at + len <= i < m.Length ==> m[i] == b[i]
    {
      m[at + k] := m[from + k];
    }
    assert b[from..from + len] == old(m[from..from + len]);
  }

  method CopyFromStart(m: array<byte>, at: nat, from: nat, len: nat)
    requires (at <= from || from + len <= at) && at + len <= m.Length && from + len <= m.Length
    modifies m
    ensures m[..] == Overwrite(old(m[..]), at, old(m[from..from + len]))
  {
    ghost var b := m[..];
    for k := 0 to len
      invariant forall i :: 0 <= i < at ==> m[i] == b[i]
      invariant forall i :: at <= i < at + k ==> m[i] == b[from + i - at]
      invariant forall i :: at + k <= i < m.Length ==> m[i] == b[i]
    {
      m[at + k] := m[from + k];
    }
    assert b[from..from + len] == old(m[from..from + len]);
  }

  /** The two memories hold different bytes `k` places after the given offsets. */
  predicate DifferAt(d: seq<byte>, i: nat, s: seq<byte>, j: nat, k: nat) {
    i + k < |d| && j + k < |s| && d[i + k] != s[j + k]
  }

  /** Either operand may be shorter than `len`, as long as a difference comes first. */
  predicate Comparable(d: seq<byte>, i: nat, s: seq<byte>, j: nat, len: nat) {
    && i <= |d| && j <= |s|
    && ((i + len <= |d| && j + len <= |s|) || exists k :: 0 <= k < len && DifferAt(d, i, s, j, k))
  }

  predicate SameBytes(d: seq<byte>, i: nat, s: seq<byte>, j: nat, len: nat) {
    i + len <= |d| && j + len <= |s| && d[i..i + len] == s[j..j + len]
  }

  /** Byte comparison that stops at the first difference. */
  method CompareMem(d: seq<byte>, i: nat, s: seq<byte>, j: nat, len: nat) returns (equal: bool)
    requires Comparable(d, i, s, j, len)
    ensures equal <==> SameBytes(d, i, s, j, len)
  {
    var k := 0;
    while k < len
      invariant 0 <= k <= len
      invariant i + k <= |d| && j + k <= |s|
      invariant forall l :: 0 <= l < k ==> !DifferAt(d, i, s, j, l)
    {
      if d[i + k] != s[j + k] {
        assert i + len <= |d| && j + len <= |s| ==> d[i..i + len][k] != s[j..j + len][k];
        return false;
      }
      k := k + 1;
    }
    var x, y := d[i..i + len], s[j..j + len];
    forall l | 0 <= l < len ensures x[l] == y[l] {
      assert !DifferAt(d, i, s, j, l);
    }
    return true;
  }
}
