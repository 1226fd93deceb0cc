/** Paths as snoc-lists of name tokens, and the list and prefix facts that the trie, the
    traversal and the index share. */
module Paths {

  datatype Path = Root | Node(up: Path, name: string)

  /** `q` is `p` or an ancestor of `p`. */
  predicate Above(q: Path, p: Path) {
    q == p || (p.Node? && Above(q, p.up))
  }

  function Depth(p: Path): nat {
    if p.Root? then 0 else Depth(p.up) + 1
  }

  /** No token of `p` is empty. */
  predicate Named(p: Path) {
    p.Node? ==> p.name != "" && Named(p.up)
  }

  /** The root, `p` and everything between. */
  function Prefixes(p: Path): (r: set<Path>)
    ensures forall q :: q in r <==> Above(q, p)
  {
    if p.Root? then {p} else Prefixes(p.up) + {p}
  }

  lemma {:induction false} AboveTransitive(a: Path, b: Path, c: Path)
    requires Above(a, b) && Above(b, c)
    ensures Above(a, c)
  {
    if b != c {
      AboveTransitive(a, b, c.up);
    }
  }

  lemma {:induction false} AboveDepth(q: Path, p: Path)
    requires Above(q, p)
    ensures Depth(q) <= Depth(p)
    ensures Depth(q) == Depth(p) ==> q == p
  {
    if q != p {
      AboveDepth(q, p.up);
    }
  }

  /** Two ancestors of the same path are comparable. */
  lemma {:induction false} AboveLinear(a: Path, b: Path, p: Path)
    requires Above(a, p) && Above(b, p)
    ensures Above(a, b) || Above(b, a)
  {
    if a != p && b != p {
      AboveLinear(a, b, p.up);
    }
  }

  /** The step from a proper ancestor `q` towards `p`. */
  function Towards(q: Path, p: Path): (c: Path)
    requires Above(q, p) && q != p
    ensures c.Node? && c.up == q && Above(c, p)
  {
    if p.up == q then p else Towards(q, p.up)
  }

  /** The path of the first `d` tokens. */
  function PathAt(tokens: seq<string>, d: nat): Path
    requires d <= |tokens|
  {
    if d == 0 then Root else Node(PathAt(tokens, d - 1), tokens[d - 1])
  }

  function PathOf(tokens: seq<string>): Path {
    PathAt(tokens, |tokens|)
  }

  lemma {:induction false} PathAtAbove(tokens: seq<string>, d: nat, e: nat)
    requires d <= e <= |tokens|
    ensures Above(PathAt(tokens, d), PathAt(tokens, e))
  {
    if d < e {
      PathAtAbove(tokens, d, e - 1);
    }
  }

  lemma {:induction false} PathAtDepth(tokens: seq<string>, d: nat)
    requires d <= |tokens|
    ensures Depth(PathAt(tokens, d)) == d
  {
    if d > 0 {
      PathAtDepth(tokens, d - 1);
    }
  }

  lemma {:induction false} SamePathAt(a: seq<string>, i: nat, b: seq<string>, j: nat)
    requires i <= |a| && j <= |b|
    ensures PathAt(a, i) == PathAt(b, j) <==> i == j && a[..i] == b[..j]
  {
    if i > 0 && j > 0 {
      SamePathAt(a, i - 1, b, j - 1);
      assert a[..i] == a[..i - 1] + [a[i - 1]] && b[..j] == b[..j - 1] + [b[j - 1]];
    }
  }

  lemma {:induction false} AbovePathAt(a: seq<string>, i: nat, b: seq<string>, j: nat)
    requires i <= |a| && j <= |b|
    ensures Above(PathAt(a, i), PathAt(b, j)) <==> i <= j && a[..i] == b[..i]
  {
    SamePathAt(a, i, b, j);
    if j > 0 {
      AbovePathAt(a, i, b, j - 1);
    }
  }

  /** A path lies above another exactly when its names, whole, are the first of the other. */
  lemma AbovePathOf(a: seq<string>, b: seq<string>)
    ensures Above(PathOf(a), PathOf(b)) <==> a <= b
    ensures PathOf(a) == PathOf(b) <==> a == b
  {
    AbovePathAt(a, |a|, b, |b|);
    SamePathAt(a, |a|, b, |b|);
    assert a[..|a|] == a && b[..|b|] == b;
  }

  lemma {:induction false} NamedPathAt(a: seq<string>, i: nat)
    requires i <= |a|
    ensures Named(PathAt(a, i)) <==> "" !in a[..i]
  {
    if i > 0 {
      NamedPathAt(a, i - 1);
      assert a[..i] == a[..i - 1] + [a[i - 1]];
    }
  }

  lemma NamedPathOf(a: seq<string>)
    ensures Named(PathOf(a)) <==> "" !in a
  {
    NamedPathAt(a, |a|);
    assert a[..|a|] == a;
  }

  // ---------------------------------------------------------------- lists

  ghost predicate Distinct<T>(s: seq<T>) {
    forall i, j :: 0 <= i < j < |s| ==> s[i] != s[j]
  }

  /** list_del: the list without the first occurrence of `x`. */
  function Without<T(==)>(s: seq<T>, x: T): seq<T> {
    if s == [] then []
    else if s[0] == x then s[1..]
    else [s[0]] + Without(s[1..], x)
  }

  lemma {:induction false} WithoutAt<T>(s: seq<T>, x: T, k: nat)
    requires k < |s| && s[k] == x && x !in s[..k]
    ensures Without(s, x) == s[..k] + s[k + 1..]
  {
    if k > 0 {
      assert s[0] == s[..k][0] != x;
      assert s[1..][..k - 1] == s[..k][1..];
      WithoutAt(s[1..], x, k - 1);
    }
  }

  lemma {:induction false} WithoutMembers<T>(s: seq<T>, x: T)
    requires Distinct(s)
    ensures Distinct(Without(s, x))
    ensures forall i :: 0 <= i < |Without(s, x)| ==> Without(s, x)[i] in s && Without(s, x)[i] != x
    ensures forall i :: 0 <= i < |s| && s[i] != x ==> s[i] in Without(s, x)
    ensures |Without(s, x)| == if x in s then |s| - 1 else |s|
  {
    if s != [] {
      var rest := Without(s[1..], x);
      assert forall i :: 0 <= i < |s| - 1 ==> s[1..][i] == s[i + 1];
      WithoutMembers(s[1..], x);
      assert s == [s[0]] + s[1..];
      if s[0] != x {
        assert s[0] !in rest;
        assert Without(s, x) == [s[0]] + rest;
      }
    }
  }

  /** Distinct members of a distinct list are at most as many. */
  lemma {:induction false} DistinctFits<T>(s: seq<T>, all: seq<T>)
    requires Distinct(s) && Distinct(all) && forall i :: 0 <= i < |s| ==> s[i] in all
    ensures |s| <= |all|
  {
    if s != [] {
      WithoutMembers(all, s[0]);
      forall i | 0 <= i < |s| - 1 ensures s[1..][i] in Without(all, s[0]) {
        assert s[i + 1] in all;
      }
      DistinctFits(s[1..], Without(all, s[0]));
    }
  }
}
