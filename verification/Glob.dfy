/**
  * The wildcard matcher: a loop over the pattern that backtracks by recursion at
  * every `*`, proved against the set of strings that the pattern denotes.
  */
module Glob {
  import opened Seqs
  import opened Strings

  const STAR: wchar := 0x2A
  const QUESTION: wchar := 0x3F
  const OPEN: wchar := 0x5B
  const CLOSE: wchar := 0x5D
  const DASH: wchar := 0x2D

  // ---------- what a pattern denotes ----------

  datatype Token = Literal(c: wchar) | AnyChar | AnyText | Set(body: seq<wchar>)

  /**
    * Place `i` of a set admits `c`: an ordinary character admits itself, a dash
    * admits the range from the character before it (or from zero) to the one
    * behind it.
    */
  predicate Admits(body: seq<wchar>, i: nat, c: wchar)
    requires i < |body|
  {
    if body[i] != DASH then c == body[i]
    else i + 1 < |body| && (((i == 0 || body[i - 1] <= c) && c <= body[i + 1]) || c == body[i + 1])
  }

  ghost predicate InSet(body: seq<wchar>, c: wchar) {
    exists i :: 0 <= i < |body| && Admits(body, i, c)
  }

  /** A stretch of text that one token stands for. */
  ghost predicate Denotes(t: Token, part: seq<wchar>) {
    match t
    case AnyText => true
    case AnyChar => |part| == 1
    case Literal(c) => part == [c]
    case Set(body) => |part| == 1 && InSet(body, part[0])
  }

  ghost function Flatten(parts: seq<seq<wchar>>): seq<wchar> {
    if parts == [] then [] else parts[0] + Flatten(parts[1..])
  }

  /** The text can be cut into parts, one for each token. */
  ghost predicate CutInto(ts: seq<Token>, s: seq<wchar>, parts: seq<seq<wchar>>) {
    |parts| == |ts| && Flatten(parts) == s && forall i :: 0 <= i < |ts| ==> Denotes(ts[i], parts[i])
  }

  ghost predicate Matches(ts: seq<Token>, s: seq<wchar>) {
    exists parts :: CutInto(ts, s, parts)
  }

  lemma MatchesEmpty(s: seq<wchar>)
    ensures Matches([], s) <==> s == []
  {
    if s == [] {
      assert CutInto([], s, []);
    }
  }

  /** The first part and the parts of the rest. */
  lemma CutFirst(t: Token, ts: seq<Token>, s: seq<wchar>, k: nat, parts: seq<seq<wchar>>)
    requires k <= |s| && Denotes(t, s[..k]) && CutInto(ts, s[k..], parts)
    ensures CutInto([t] + ts, s, [s[..k]] + parts)
  {
    var all := [s[..k]] + parts;
    assert all[1..] == parts;
    assert s[..k] + s[k..] == s;
    assert forall i :: 1 <= i < |ts| + 1 ==> ([t] + ts)[i] == ts[i - 1] && all[i] == parts[i - 1];
  }

  lemma CutRest(t: Token, ts: seq<Token>, s: seq<wchar>, parts: seq<seq<wchar>>)
    requires CutInto([t] + ts, s, parts)
    ensures parts != [] && |parts[0]| <= |s|
    ensures var k := |parts[0]|; parts[0] == s[..k] && Denotes(t, s[..k]) && CutInto(ts, s[k..], parts[1..])
  {
    var k := |parts[0]|;
    ConcatParts(parts[0], Flatten(parts[1..]));
    assert ([t] + ts)[0] == t;
    assert forall i :: 0 <= i < |ts| ==> ([t] + ts)[i + 1] == ts[i] && parts[1..][i] == parts[i + 1];
  }

  /** A token that takes `k` characters first. */
  lemma MatchesCons(t: Token, ts: seq<Token>, s: seq<wchar>)
    ensures Matches([t] + ts, s) <==> exists k :: 0 <= k <= |s| && Denotes(t, s[..k]) && Matches(ts, s[k..])
  {
    if Matches([t] + ts, s) {
      var parts :| CutInto([t] + ts, s, parts);
      CutRest(t, ts, s, parts);
      var k := |parts[0]|;
      assert Denotes(t, s[..k]) && Matches(ts, s[k..]);
    }
    if k :| 0 <= k <= |s| && Denotes(t, s[..k]) && Matches(ts, s[k..]) {
      var parts :| CutInto(ts, s[k..], parts);
      CutFirst(t, ts, s, k, parts);
    }
  }

  /** Tokens that take exactly one character. */
  lemma MatchesOne(t: Token, ts: seq<Token>, s: seq<wchar>)
    requires !t.AnyText?
    ensures Matches([t] + ts, s) <==> s != [] && Denotes(t, [s[0]]) && Matches(ts, s[1..])
  {
    MatchesCons(t, ts, s);
    if s != [] {
      assert s[..1] == [s[0]];
      assert Denotes(t, [s[0]]) && Matches(ts, s[1..]) ==> 0 <= 1 <= |s| && Denotes(t, s[..1]) && Matches(ts, s[1..]);
    }
  }

  lemma MatchesStar(ts: seq<Token>, s: seq<wchar>)
    ensures Matches([AnyText] + ts, s) <==> exists k :: 0 <= k <= |s| && Matches(ts, s[k..])
  {
    MatchesCons(AnyText, ts, s);
  }

  // ---------- reading a pattern ----------

  /** Where the next closing bracket stands, or the end of the pattern. */
  function FindClose(p: Text, i: nat): (j: nat)
    requires i <= |p|
    ensures i <= j <= |p|
    ensures forall k :: i <= k < j ==> p[k] != CLOSE
    ensures j < |p| ==> p[j] == CLOSE
    decreases |p| - i
  {
    if i == |p| || p[i] == CLOSE then i else FindClose(p, i + 1)
  }

  /** Every set that the pattern opens from `i` on is closed. */
  predicate SetsClosed(p: Text, i: nat)
    requires i <= |p|
    decreases |p| - i
  {
    if i == |p| then true
    else if p[i] == OPEN then FindClose(p, i + 1) < |p| && SetsClosed(p, FindClose(p, i + 1) + 1)
    else SetsClosed(p, i + 1)
  }

  function Tokens(p: Text, i: nat): seq<Token>
    requires i <= |p| && SetsClosed(p, i)
    decreases |p| - i
  {
    if i == |p| then []
    else if p[i] == OPEN then [Set(p[i + 1..FindClose(p, i + 1)])] + Tokens(p, FindClose(p, i + 1) + 1)
    else
      var t := if p[i] == STAR then AnyText else if p[i] == QUESTION then AnyChar else Literal(p[i]);
      [t] + Tokens(p, i + 1)
  }

  // ---------- the matcher ----------

  /**
    * The inner loop over a set: `at` stands behind the opening bracket.  On
    * success the pattern continues behind the closing bracket.
    */
  method MatchSet(pattern: Text, at: nat, c: wchar) returns (ok: bool, next: nat)
    requires at <= |pattern| && FindClose(pattern, at) < |pattern|
    ensures ok <==> InSet(pattern[at..FindClose(pattern, at)], c)
    ensures ok ==> next == FindClose(pattern, at) + 1
  {
    ghost var close := FindClose(pattern, at);
    ghost var body := pattern[at..close];
    hide FindClose;
    ok, next := false, at;
    var l: wchar := 0;
    var p := CharAt(pattern, next);
    next := next + 1;
    while p != 0
      invariant at < next <= close + 1 && p == pattern[next - 1]
      invariant next - 1 > at ==>
        l == if pattern[next - 2] == DASH then pattern[next - 1] else pattern[next - 2]
      invariant next - 1 == at ==> l == 0
      invariant forall i :: 0 <= i < next - 1 - at ==> !Admits(body, i, c)
      decreases close + 1 - next
    {
      ghost var i := next - 1 - at;
      if p == CLOSE {
        return;
      }
      if p == DASH {
        p := CharAt(pattern, next);
        if p == 0 || p == CLOSE {
          assert !Admits(body, i, c);
          return;
        }
        if c >= l && c <= p {
          assert Admits(body, i, c);
          ok := true;
          break;
        }
      }
      l := p;
      if c == p {
        assert Admits(body, i, c);
        ok := true;
        break;
      }
      p := CharAt(pattern, next);
      next := next + 1;
    }
    while p != 0 && p != CLOSE
      invariant at < next <= close + 1
      invariant p != 0 && (p == CLOSE <==> next == close + 1)
      decreases close + 1 - next
    {
      p := CharAt(pattern, next);
      next := next + 1;
    }
  }

  /** Every place of pattern and string: one round of the loop reads one token. */
  method MetaMatch(str: Text, si: nat, pattern: Text, pi: nat) returns (matched: bool)
    requires si <= |str| && pi <= |pattern| && SetsClosed(pattern, pi)
    ensures matched <==> Matches(Tokens(pattern, pi), str[si..])
    decreases |pattern| - pi, 0
  {
    hide Matches, Denotes, Tokens, SetsClosed, FindClose, InSet;
    var s, q := si, pi;
    while true
      invariant si <= s <= |str| && pi <= q <= |pattern| && SetsClosed(pattern, q)
      invariant Matches(Tokens(pattern, pi), str[si..]) <==> Matches(Tokens(pattern, q), str[s..])
      decreases |pattern| - q
    {
      NextToken(pattern, q);
      var p := CharAt(pattern, q);
      q := q + 1;
      if p == 0 {
        MatchesEmpty(str[s..]);
        return CharAt(str, s) == 0;
      } else if p == STAR {
        matched := TryAll(str, s, pattern, q);
        return;
      } else if p == QUESTION {
        OneToken(AnyChar, Tokens(pattern, q), str, s);
        if CharAt(str, s) == 0 {
          return false;
        }
        s := s + 1;
      } else if p == OPEN {
        ghost var close := FindClose(pattern, q);
        OneToken(Set(pattern[q..close]), Tokens(pattern, close + 1), str, s);
        var c := CharAt(str, s);
        if c == 0 {
          return false;
        }
        var ok;
        ok, q := MatchSet(pattern, q, c);
        if !ok {
          return false;
        }
        s := s + 1;
      } else {
        OneToken(Literal(p), Tokens(pattern, q), str, s);
        if CharAt(str, s) != p {
          return false;
        }
        s := s + 1;
      }
    }
  }

  lemma NextToken(p: Text, i: nat)
    requires i <= |p| && SetsClosed(p, i)
    ensures i == |p| ==> Tokens(p, i) == []
    ensures i < |p| && p[i] == OPEN ==>
      var close := FindClose(p, i + 1);
      close < |p| && SetsClosed(p, close + 1) && Tokens(p, i) == [Set(p[i + 1..close])] + Tokens(p, close + 1)
    ensures i < |p| && p[i] != OPEN ==> SetsClosed(p, i + 1)
    ensures i < |p| && p[i] == STAR ==> Tokens(p, i) == [AnyText] + Tokens(p, i + 1)
    ensures i < |p| && p[i] == QUESTION ==> Tokens(p, i) == [AnyChar] + Tokens(p, i + 1)
    ensures i < |p| && p[i] !in {OPEN, STAR, QUESTION} ==> Tokens(p, i) == [Literal(p[i])] + Tokens(p, i + 1)
  {
  }

  lemma OneToken(t: Token, ts: seq<Token>, str: Text, s: nat)
    requires !t.AnyText? && s <= |str|
    ensures s == |str| ==> !Matches([t] + ts, str[s..])
    ensures s < |str| ==> (Matches([t] + ts, str[s..]) <==> Takes(t, str[s]) && Matches(ts, str[s + 1..]))
  {
    MatchesOne(t, ts, str[s..]);
    if s < |str| {
      assert str[s..][1..] == str[s + 1..];
      assert Denotes(t, [str[s]]) == Takes(t, str[s]);
    }
  }

  /** The characters that a one-character token takes. */
  ghost predicate Takes(t: Token, c: wchar)
    requires !t.AnyText?
  {
    match t
    case AnyChar => true
    case Literal(d) => c == d
    case Set(body) => InSet(body, c)
  }

  /** Behind a star: tries every suffix of the string. */
  method TryAll(str: Text, si: nat, pattern: Text, q: nat) returns (matched: bool)
    requires si <= |str| && q <= |pattern| && SetsClosed(pattern, q)
    ensures matched <==> Matches([AnyText] + Tokens(pattern, q), str[si..])
    decreases |pattern| - q, 1
  {
    hide Matches;
    ghost var ts := Tokens(pattern, q);
    StarSuffix(ts, str, si);
    var s := si;
    while CharAt(str, s) != 0
      invariant si <= s <= |str|
      invariant forall k :: si <= k < s ==> !Matches(ts, str[k..])
      decreases |str| - s
    {
      var m := MetaMatch(str, s, pattern, q);
      if m {
        return true;
      }
      s := s + 1;
    }
    matched := MetaMatch(str, s, pattern, q);
  }

  lemma StarSuffix(ts: seq<Token>, str: Text, s: nat)
    requires s <= |str|
    ensures Matches([AnyText] + ts, str[s..]) <==> exists k :: s <= k <= |str| && Matches(ts, str[k..])
  {
    MatchesStar(ts, str[s..]);
    hide Matches;
    forall k | 0 <= k <= |str| - s ensures str[s..][k..] == str[s + k..] {}
    if k :| s <= k <= |str| && Matches(ts, str[k..]) {
      assert str[s..][k - s..] == str[k..];
    }
  }

  // ---------- a consequence ----------

  predicate Plain(p: Text) {
    forall i :: 0 <= i < |p| ==> p[i] !in {OPEN, STAR, QUESTION}
  }

  lemma {:induction false} PlainIsClosed(p: Text, i: nat)
    requires Plain(p) && i <= |p|
    ensures SetsClosed(p, i)
    decreases |p| - i
  {
    if i < |p| {
      PlainIsClosed(p, i + 1);
    }
  }

  /** A pattern without special characters matches itself and nothing else. */
  lemma {:induction false} PlainMatchesItself(p: Text, i: nat, s: Text)
    requires Plain(p) && i <= |p| && SetsClosed(p, i)
    ensures Matches(Tokens(p, i), s) <==> s == p[i..]
    decreases |p| - i
  {
    hide Matches;
    NextToken(p, i);
    if i == |p| {
      MatchesEmpty(s);
    } else {
      OneToken(Literal(p[i]), Tokens(p, i + 1), s, 0);
      assert s[0..] == s;
      assert p[i..] == [p[i]] + p[i + 1..];
      if s != [] {
        HeadTail(s);
        PlainMatchesItself(p, i + 1, s[1..]);
        ConsEqual(p[i], s[1..], p[i + 1..]);
      }
    }
  }
}
