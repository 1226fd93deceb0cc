/** Which strings name which paths: the laws that tie the trie's paths back to the characters
    of the buffer. */
module Names {
  import opened Paths
  import opened Tokenizer

  /** A string without the one slash that may end it. */
  function Chop(s: string): string {
    if s != "" && s[|s| - 1] == '/' then s[..|s| - 1] else s
  }

  function PathNamed(s: string): Path {
    PathOf(Tokens(s))
  }

  lemma ChopIsJoin(s: string)
    requires s != "" && s[0] == '/'
    ensures Chop(s) == Join(Tokens(s))
  {
    TokensRebuild(s);
  }

  /** Two absolute strings name the same path exactly when they agree up to one slash at the
      end. */
  lemma SameName(s: string, t: string)
    requires s != "" && s[0] == '/' && t != "" && t[0] == '/'
    ensures PathNamed(s) == PathNamed(t) <==> Chop(s) == Chop(t)
  {
    ChopIsJoin(s);
    ChopIsJoin(t);
    TokensRebuild(s);
    TokensRebuild(t);
    AbovePathOf(Tokens(s), Tokens(t));
    if Chop(s) == Chop(t) {
      JoinInjective(Tokens(s), Tokens(t));
    }
  }

  lemma {:induction false} JoinAppend(a: seq<string>, b: seq<string>)
    ensures Join(a + b) == Join(a) + Join(b)
  {
    if a == [] {
      assert a + b == b;
    } else {
      assert (a + b)[1..] == a[1..] + b;
      JoinAppend(a[1..], b);
    }
  }

  lemma JoinStarts(a: seq<string>)
    ensures Join(a) != "" ==> Join(a)[0] == '/'
    ensures Join(a) == "" <==> a == []
  {
  }

  /** Where a join continues with a slash, a token ends. */
  lemma {:induction false} JoinPrefix(a: seq<string>, b: seq<string>)
    requires Join(a) + "/" <= Join(b)
    requires forall i :: 0 <= i < |a| ==> '/' !in a[i]
    requires forall i :: 0 <= i < |b| ==> '/' !in b[i]
    ensures a <= b
  {
    if a != [] {
      var x, y := Join(a[1..]) + "/", Join(b[1..]);
      JoinStarts(a[1..]);
      JoinStarts(b[1..]);
      assert Join(a) + "/" == "/" + a[0] + x && Join(b) == "/" + b[0] + y;
      SameHead(a[0], x, b[0], y);
      JoinPrefix(a[1..], b[1..]);
      assert a == [a[0]] + a[1..] && b == [b[0]] + b[1..];
    }
  }

  lemma SameHead(h: string, x: string, g: string, y: string)
    requires "/" + h + x <= "/" + g + y && '/' !in h && '/' !in g
    requires x != "" && x[0] == '/' && (y != "" ==> y[0] == '/')
    ensures h == g && x <= y
  {
    var s, t := "/" + h + x, "/" + g + y;
    assert forall k :: 0 <= k < |h| ==> s[1 + k] == h[k];
    assert forall k :: 0 <= k < |g| ==> t[1 + k] == g[k];
    assert s[1 + |h|] == '/' && s[1 + |h|] == t[1 + |h|];
    assert |t| > 1 + |g| ==> t[1 + |g|] == '/';
    assert h == s[1..1 + |h|] == t[1..1 + |h|] == g;
    assert x == s[1 + |h|..] && y == t[1 + |h|..];
  }

  lemma LongerName(a: seq<string>, b: seq<string>)
    requires a <= b
    ensures Join(a) == Join(b) || Join(a) + "/" <= Join(b)
  {
    assert b == a + b[|a|..];
    JoinAppend(a, b[|a|..]);
    JoinStarts(b[|a|..]);
  }

  /** The path named by `s` lies above that named by `t` exactly when `t` goes on where `s` ends,
      at a slash: "/home/documents" is above "/home/documents/x", but not "/home/documents2". */
  lemma NamedAbove(s: string, t: string)
    requires s != "" && s[0] == '/' && t != "" && t[0] == '/'
    ensures Above(PathNamed(s), PathNamed(t)) <==> Chop(s) == Chop(t) || Chop(s) + "/" <= Chop(t)
  {
    var a, b := Tokens(s), Tokens(t);
    ChopIsJoin(s);
    ChopIsJoin(t);
    AbovePathOf(a, b);
    SameName(s, t);
    if a <= b {
      LongerName(a, b);
    }
    if Join(a) + "/" <= Join(b) {
      TokensRebuild(s);
      TokensRebuild(t);
      JoinPrefix(a, b);
    }
  }

  /** Two slashes in a row at or after `i`. */
  ghost predicate DoubleFrom(s: string, i: nat) {
    exists k :: i <= k < |s| - 1 && s[k] == '/' && s[k + 1] == '/'
  }

  lemma {:induction false} EmptyToken(s: string, i: nat)
    ensures "" in TokensFrom(s, i) <==> DoubleFrom(s, i)
    decreases |s| - i
  {
    if i < |s| {
      EmptyToken(s, i + 1);
      if s[i] == '/' && i + 1 < |s| {
        assert Segment(s, i + 1) == "" <==> s[i + 1] == '/';
      }
      if DoubleFrom(s, i) && !DoubleFrom(s, i + 1) {
        var k :| i <= k < |s| - 1 && s[k] == '/' && s[k + 1] == '/';
        assert k == i;
      }
    }
  }

  /** A string names a path without empty tokens exactly when it has no two slashes in a row. */
  lemma NamedExactly(s: string)
    ensures Named(PathNamed(s)) <==> !DoubleFrom(s, 0)
  {
    NamedPathOf(Tokens(s));
    EmptyToken(s, 0);
  }
}
