/**
  * What patterns match, told by the characters that one writes in a pattern: each
  * kind of pattern alone, and patterns one behind the other.
  */
module GlobLaws {
  import opened Seqs
  import opened Strings
  import opened Glob

  /** The pattern matches the string. */
  ghost predicate PatternMatches(p: Text, s: seq<wchar>)
    requires SetsClosed(p, 0)
  {
    Matches(Tokens(p, 0), s)
  }

  // ---------- single patterns ----------

  lemma MatchesSingle(t: Token, s: seq<wchar>)
    ensures Matches([t], s) <==> Denotes(t, s)
  {
    if Denotes(t, s) {
      assert Flatten([s]) == s + Flatten([]) == s;
      assert CutInto([t], s, [s]);
    }
    if Matches([t], s) {
      var parts :| CutInto([t], s, parts);
      assert Flatten(parts) == parts[0] + Flatten([]) == parts[0];
      assert Denotes([t][0], parts[0]);
    }
  }

  /** A star matches every string. */
  lemma StarMatches(s: seq<wchar>)
    ensures var p: Text := ['*' as int]; SetsClosed(p, 0) && PatternMatches(p, s)
  {
    var p: Text := ['*' as int];
    assert SetsClosed(p, 1) && Tokens(p, 1) == [];
    assert Tokens(p, 0) == [AnyText];
    MatchesSingle(AnyText, s);
  }

  /** A question mark matches exactly the strings of one character. */
  lemma QuestionMatches(s: seq<wchar>)
    ensures var p: Text := ['?' as int]; SetsClosed(p, 0) && (PatternMatches(p, s) <==> |s| == 1)
  {
    var p: Text := ['?' as int];
    assert SetsClosed(p, 1) && Tokens(p, 1) == [];
    assert Tokens(p, 0) == [AnyChar];
    MatchesSingle(AnyChar, s);
  }

  /** A set between brackets. */
  lemma SetMatches(p: Text, body: seq<wchar>, s: seq<wchar>)
    requires ']' as int !in body && p == ['[' as int] + body + [']' as int]
    ensures SetsClosed(p, 0) && (PatternMatches(p, s) <==> |s| == 1 && InSet(body, s[0]))
  {
    var n := |body|;
    forall k | 1 <= k < 1 + n ensures p[k] != CLOSE {
      assert p[k] == body[k - 1] && body[k - 1] in body;
    }
    FindCloseIs(p, 1, 1 + n);
    assert SetsClosed(p, n + 2) && Tokens(p, n + 2) == [];
    assert p[1..1 + n] == body;
    assert Tokens(p, 0) == [Set(body)];
    MatchesSingle(Set(body), s);
  }

  /** Characters without a dash between brackets match any one of them. */
  lemma ListMatches(p: Text, body: seq<wchar>, s: seq<wchar>)
    requires ']' as int !in body && '-' as int !in body && p == ['[' as int] + body + [']' as int]
    ensures SetsClosed(p, 0) && (PatternMatches(p, s) <==> |s| == 1 && s[0] in body)
  {
    SetMatches(p, body, s);
    if |s| == 1 {
      forall i | 0 <= i < |body| ensures Admits(body, i, s[0]) <==> s[0] == body[i] {
        assert body[i] in body;
      }
    }
  }

  /** Two characters with a dash between them match what lies between them, and the two themselves. */
  lemma RangeMatches(lo: wchar, hi: wchar, p: Text, s: seq<wchar>)
    requires lo !in {'-' as int, ']' as int} && hi !in {'-' as int, ']' as int}
    requires p == ['[' as int, lo, '-' as int, hi, ']' as int]
    ensures SetsClosed(p, 0)
    ensures PatternMatches(p, s) <==> |s| == 1 && (lo <= s[0] <= hi || s[0] == lo || s[0] == hi)
  {
    var body := [lo, '-' as int, hi];
    assert p == ['[' as int] + body + [']' as int];
    SetMatches(p, body, s);
    if |s| == 1 {
      var c := s[0];
      assert Admits(body, 0, c) <==> c == lo;
      assert Admits(body, 1, c) <==> (lo <= c <= hi || c == hi);
      assert Admits(body, 2, c) <==> c == hi;
      assert InSet(body, c) <==> Admits(body, 0, c) || Admits(body, 1, c) || Admits(body, 2, c);
    }
  }

  /** A dash in front is no character of the set: it admits everything up to the one behind it. */
  lemma LeadingDash(hi: wchar, p: Text, s: seq<wchar>)
    requires hi !in {'-' as int, ']' as int} && p == ['[' as int, '-' as int, hi, ']' as int]
    ensures SetsClosed(p, 0) && (PatternMatches(p, s) <==> |s| == 1 && s[0] <= hi)
  {
    var body := ['-' as int, hi];
    assert p == ['[' as int] + body + [']' as int];
    SetMatches(p, body, s);
    if |s| == 1 {
      assert Admits(body, 0, s[0]) <==> s[0] <= hi;
      assert Admits(body, 1, s[0]) <==> s[0] == hi;
      assert InSet(body, s[0]) <==> Admits(body, 0, s[0]) || Admits(body, 1, s[0]);
    }
  }

  /** Nor is a dash at the end. */
  lemma TrailingDash(lo: wchar, p: Text, s: seq<wchar>)
    requires lo !in {'-' as int, ']' as int} && p == ['[' as int, lo, '-' as int, ']' as int]
    ensures SetsClosed(p, 0) && (PatternMatches(p, s) <==> s == [lo])
  {
    var body := [lo, '-' as int];
    assert p == ['[' as int] + body + [']' as int];
    SetMatches(p, body, s);
    if |s| == 1 {
      assert Admits(body, 0, s[0]) <==> s[0] == lo;
      assert !Admits(body, 1, s[0]);
      assert InSet(body, s[0]) <==> Admits(body, 0, s[0]);
    }
  }

  /** Sets add up, as long as no dash stands where they meet. */
  lemma SetsAddUp(a: seq<wchar>, b: seq<wchar>, c: wchar)
    requires a == [] || a[|a| - 1] != '-' as int
    requires b == [] || b[0] != '-' as int
    ensures InSet(a + b, c) <==> InSet(a, c) || InSet(b, c)
  {
    assert forall i :: 0 <= i < |a| ==> (Admits(a + b, i, c) <==> Admits(a, i, c));
    assert forall i :: 0 <= i < |b| ==> (Admits(a + b, |a| + i, c) <==> Admits(b, i, c));
    if InSet(a + b, c) {
      var i :| 0 <= i < |a + b| && Admits(a + b, i, c);
      if i >= |a| {
        assert Admits(b, i - |a|, c);
      }
    }
  }

  // ---------- patterns one behind the other ----------

  lemma FindCloseIs(p: Text, i: nat, j: nat)
    requires i <= j < |p| && p[j] == CLOSE && forall k :: i <= k < j ==> p[k] != CLOSE
    ensures FindClose(p, i) == j
  {
    hide FindClose;
  }

  lemma FindCloseBefore(p: Text, q: Text, r: Text, i: nat)
    requires r == p + q && i <= |p| && FindClose(p, i) < |p|
    ensures FindClose(r, i) == FindClose(p, i)
  {
    hide FindClose;
    var j := FindClose(p, i);
    assert forall k :: i <= k <= j ==> r[k] == p[k];
    FindCloseIs(r, i, j);
  }

  lemma FindCloseBehind(p: Text, q: Text, r: Text, i: nat)
    requires r == p + q && i <= |q| && FindClose(q, i) < |q|
    ensures FindClose(r, |p| + i) == |p| + FindClose(q, i)
  {
    hide FindClose;
    var j := FindClose(q, i);
    assert forall k :: |p| + i <= k <= |p| + j ==> r[k] == q[k - |p|];
    FindCloseIs(r, |p| + i, |p| + j);
  }

  /** How a pattern goes on: where the next token starts. */
  function After(p: Text, i: nat): nat
    requires i < |p|
  {
    if p[i] == OPEN then FindClose(p, i + 1) + 1 else i + 1
  }

  function TokenAt(p: Text, i: nat): Token
    requires i < |p|
  {
    if p[i] == OPEN then Set(p[i + 1..FindClose(p, i + 1)])
    else if p[i] == STAR then AnyText else if p[i] == QUESTION then AnyChar else Literal(p[i])
  }

  lemma TokensStep(p: Text, i: nat)
    requires i < |p|
    ensures SetsClosed(p, i) <==> i < After(p, i) <= |p| && SetsClosed(p, After(p, i))
    ensures SetsClosed(p, i) ==> Tokens(p, i) == [TokenAt(p, i)] + Tokens(p, After(p, i))
    ensures SetsClosed(p, i) && p[i] == OPEN ==> FindClose(p, i + 1) < |p|
  {
    hide FindClose;
  }

  lemma SameBehind(p: Text, q: Text, r: Text, i: nat)
    requires r == p + q && i < |q| && After(q, i) <= |q|
    ensures After(r, |p| + i) == |p| + After(q, i) && TokenAt(r, |p| + i) == TokenAt(q, i)
  {
    hide FindClose;
    assert r[|p| + i] == q[i];
    if q[i] == OPEN {
      FindCloseBehind(p, q, r, i + 1);
      assert r[|p| + i + 1..|p| + FindClose(q, i + 1)] == q[i + 1..FindClose(q, i + 1)];
    }
  }

  lemma SameBefore(p: Text, q: Text, r: Text, i: nat)
    requires r == p + q && i < |p| && After(p, i) <= |p|
    ensures After(r, i) == After(p, i) && TokenAt(r, i) == TokenAt(p, i)
  {
    hide FindClose;
    assert r[i] == p[i];
    if p[i] == OPEN {
      FindCloseBefore(p, q, r, i + 1);
      assert r[i + 1..FindClose(p, i + 1)] == p[i + 1..FindClose(p, i + 1)];
    }
  }

  lemma {:induction false} TokensBehind(p: Text, q: Text, r: Text, i: nat)
    requires r == p + q && i <= |q| && SetsClosed(q, i)
    ensures SetsClosed(r, |p| + i) && Tokens(r, |p| + i) == Tokens(q, i)
    decreases |q| - i
  {
    if i < |q| {
      hide SetsClosed, Tokens, After, TokenAt;
      TokensStep(q, i);
      SameBehind(p, q, r, i);
      TokensBehind(p, q, r, After(q, i));
      TokensStep(r, |p| + i);
    }
  }

  lemma {:induction false} TokensConcat(p: Text, q: Text, r: Text, i: nat)
    requires r == p + q && i <= |p| && SetsClosed(p, i) && SetsClosed(q, 0)
    ensures SetsClosed(r, i) && Tokens(r, i) == Tokens(p, i) + Tokens(q, 0)
    decreases |p| - i
  {
    if i == |p| {
      TokensBehind(p, q, r, 0);
      assert [] + Tokens(q, 0) == Tokens(q, 0);
    } else {
      hide SetsClosed, Tokens, After, TokenAt;
      TokensStep(p, i);
      SameBefore(p, q, r, i);
      TokensConcat(p, q, r, After(p, i));
      TokensStep(r, i);
      Assoc([TokenAt(p, i)], Tokens(p, After(p, i)), Tokens(q, 0));
    }
  }

  lemma {:induction false} MatchesConcat(a: seq<Token>, b: seq<Token>, s: seq<wchar>)
    ensures Matches(a + b, s) <==> exists k :: 0 <= k <= |s| && Matches(a, s[..k]) && Matches(b, s[k..])
  {
    hide Matches, Denotes;
    if a == [] {
      assert a + b == b;
      MatchesEmpty([]);
      assert s[..0] == [] && s[0..] == s;
      forall k | 0 <= k <= |s| && Matches(a, s[..k]) ensures k == 0 {
        MatchesEmpty(s[..k]);
      }
    } else {
      var t, rest := a[0], a[1..];
      assert a == [t] + rest && a + b == [t] + (rest + b);
      MatchesCons(t, rest + b, s);
      if Matches(a + b, s) {
        var j :| 0 <= j <= |s| && Denotes(t, s[..j]) && Matches(rest + b, s[j..]);
        MatchesConcat(rest, b, s[j..]);
        var k :| 0 <= k <= |s[j..]| && Matches(rest, s[j..][..k]) && Matches(b, s[j..][k..]);
        MatchesCons(t, rest, s[..j + k]);
        assert s[..j + k][..j] == s[..j] && s[..j + k][j..] == s[j..][..k] && s[j..][k..] == s[j + k..];
        assert Matches(a, s[..j + k]) && Matches(b, s[j + k..]);
      }
      if k :| 0 <= k <= |s| && Matches(a, s[..k]) && Matches(b, s[k..]) {
        MatchesCons(t, rest, s[..k]);
        var j :| 0 <= j <= k && Denotes(t, s[..k][..j]) && Matches(rest, s[..k][j..]);
        MatchesConcat(rest, b, s[j..]);
        assert s[..k][..j] == s[..j] && s[..k][j..] == s[j..][..k - j] && s[j..][k - j..] == s[k..];
        assert Matches(rest + b, s[j..]);
      }
    }
  }

  /** Two patterns one behind the other match what can be cut in two, the front for one and the back for the other. */
  lemma PatternsConcat(p: Text, q: Text, r: Text, s: seq<wchar>)
    requires r == p + q && SetsClosed(p, 0) && SetsClosed(q, 0)
    ensures SetsClosed(r, 0)
    ensures PatternMatches(r, s)
      <==> exists k :: 0 <= k <= |s| && PatternMatches(p, s[..k]) && PatternMatches(q, s[k..])
  {
    hide Matches, Tokens, SetsClosed;
    TokensConcat(p, q, r, 0);
    MatchesConcat(Tokens(p, 0), Tokens(q, 0), s);
    if PatternMatches(r, s) {
      var k :| 0 <= k <= |s| && Matches(Tokens(p, 0), s[..k]) && Matches(Tokens(q, 0), s[k..]);
      assert PatternMatches(p, s[..k]) && PatternMatches(q, s[k..]);
    }
  }
}
