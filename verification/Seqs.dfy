/** Laws of sequences that the solver is spared from finding again. */
module Seqs {

  lemma Assoc<T>(a: seq<T>, b: seq<T>, c: seq<T>)
    ensures a + (b + c) == (a + b) + c
  {
  }

  lemma TailOfConcat<T>(a: seq<T>, b: seq<T>)
    requires a != []
    ensures (a + b)[0] == a[0] && (a + b)[1..] == a[1..] + b
  {
  }

  lemma DropIntoFirst<T>(a: seq<T>, b: seq<T>, k: nat)
    requires k <= |a|
    ensures (a + b)[k..] == a[k..] + b
  {
  }

  lemma HeadTail<T>(a: seq<T>)
    requires a != []
    ensures a == [a[0]] + a[1..]
  {
  }

  /** A part of a stretch of `m` is a stretch of `m`. */
  lemma SubSlice<T>(m: seq<T>, i: nat, s: seq<T>, lo: nat, hi: nat)
    requires i + |s| <= |m| && m[i..i + |s|] == s && lo <= hi <= |s|
    ensures m[i + lo..i + hi] == s[lo..hi]
  {
    forall k | 0 <= k < hi - lo ensures m[i + lo..i + hi][k] == s[lo..hi][k] {
      assert s[lo + k] == m[i..i + |s|][lo + k];
    }
  }

  lemma ConcatParts<T>(a: seq<T>, b: seq<T>)
    ensures (a + b)[..|a|] == a && (a + b)[|a|..] == b
  {
  }

  lemma TakeOfTail<T>(s: seq<T>, k: nat)
    requires 0 < k <= |s|
    ensures s[..k] == [s[0]] + s[1..][..k - 1] && s[1..][k - 1..] == s[k..]
  {
  }

  lemma ConsEqual<T>(x: T, a: seq<T>, b: seq<T>)
    ensures [x] + a == [x] + b <==> a == b
  {
    ConcatParts([x], a);
    ConcatParts([x], b);
  }

  /** All but element `k`. */
  function Without<T>(s: seq<T>, k: nat): seq<T>
    requires k < |s|
  {
    s[..k] + s[k + 1..]
  }

  /** Memory `m` with the elements from `at` on overwritten by `s`. */
  ghost function Overwrite<T>(m: seq<T>, at: nat, s: seq<T>): (r: seq<T>)
    requires at + |s| <= |m|
    ensures |r| == |m|
  {
    m[..at] + s + m[at + |s|..]
  }

  /** What an overwritten stretch looks like from the start, and behind it. */
  lemma OverwriteParts<T>(m: seq<T>, at: nat, s: seq<T>)
    requires at + |s| <= |m|
    ensures Overwrite(m, at, s)[..at + |s|] == m[..at] + s
    ensures Overwrite(m, at, s)[at + |s|..] == m[at + |s|..]
  {
  }

  /** Writing one more element behind an overwritten stretch. */
  lemma OverwriteSnoc<T>(m: seq<T>, at: nat, s: seq<T>, x: T)
    requires at + |s| < |m|
    ensures Overwrite(m, at, s)[at + |s| := x] == Overwrite(m, at, s + [x])
  {
  }

  lemma OverwriteNothing<T>(m: seq<T>, at: nat)
    requires at <= |m|
    ensures Overwrite(m, at, []) == m
  {
  }

  /** Overwriting first one stretch and then the one behind it. */
  lemma OverwriteTwice<T>(m: seq<T>, at: nat, s: seq<T>, t: seq<T>)
    requires at + |s| + |t| <= |m|
    ensures Overwrite(Overwrite(m, at, s), at + |s|, t) == Overwrite(m, at, s + t)
  {
  }
}
