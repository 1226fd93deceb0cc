/** The path trie of path_store.c as a value: for every node its ordered list of child
    names, and the set of nodes whose explicit bit is set.  The theorems say what adding,
    removing and checking do to, and learn from, the set of explicit paths. */
module Trie {
  import opened Paths

  datatype Trie = Trie(kids: map<Path, seq<string>>, explicit: set<Path>)

  const EMPTY := Trie(map[Root := []], {})

  /** Parent links and child lists agree, sibling names are distinct and non-empty, and only
      nodes are explicit. */
  ghost predicate WellFormed(t: Trie) {
    match t
    case Trie(kids, explicit) =>
      && Root in kids
      && explicit <= kids.Keys
      && (forall p {:trigger kids[p]} :: p in kids ==> Distinct(kids[p]) && "" !in kids[p])
      && (forall p, n {:trigger n in kids[p]} :: p in kids && n in kids[p] ==> Node(p, n) in kids)
      && (forall p {:trigger p.up} :: p in kids && p.Node? ==> p.up in kids && p.name in kids[p.up])
  }

  /** Every childless node other than the root is explicit. */
  ghost predicate Canonical(t: Trie) {
    forall p :: p in t.kids && p.Node? && t.kids[p] == [] ==> p in t.explicit
  }

  /** Some explicit path lies at or below `p`. */
  ghost predicate Leads(explicit: set<Path>, p: Path) {
    exists e :: e in explicit && Above(p, e)
  }

  // ---------------------------------------------------------------- operations

  /** Where the search for `p` stops: its deepest ancestor that is a node. */
  function Deepest(t: Trie, p: Path): Path {
    if p in t.kids || p.Root? then p else Deepest(t, p.up)
  }

  /** Links a new childless node at the head of the children of `q`. */
  function Attach(t: Trie, q: Path, n: string): Trie
    requires q in t.kids
  {
    t.(kids := t.kids[q := [n] + t.kids[q]][Node(q, n) := []])
  }

  /** Links the missing nodes down to `p`, stopping at an empty token (false). */
  function Grow(t: Trie, p: Path): (r: (Trie, bool))
    requires Root in t.kids
    ensures Root in r.0.kids && (r.1 ==> p in r.0.kids)
  {
    if p in t.kids then (t, true)
    else
      var (u, ok) := Grow(t, p.up);
      if ok && p.name != "" then (Attach(u, p.up, p.name), true) else (u, false)
  }

  function Add(t: Trie, p: Path): (Trie, bool)
    requires Root in t.kids
  {
    var (u, ok) := Grow(t, p);
    (if ok then u.(explicit := u.explicit + {p}) else u, ok)
  }

  /** Unlinks the node `q` from its parent. */
  function Detach(t: Trie, q: Path): Trie
    requires q.Node? && q.up in t.kids
  {
    t.(kids := (t.kids - {q})[q.up := Without(t.kids[q.up], q.name)])
  }

  /** Pruning stops at the root, at a branching node and at an explicit node. */
  predicate Stops(t: Trie, q: Path)
  {
    q.Root? || q !in t.kids || q.up !in t.kids || t.kids[q] != [] || q in t.explicit
  }

  /** The upward pruning loop of path_store_rm. */
  function Prune(t: Trie, q: Path): Trie
    decreases q
  {
    if Stops(t, q) then t else Prune(Detach(t, q), q.up)
  }

  function Remove(t: Trie, p: Path): (Trie, bool)
  {
    if p !in t.kids || p !in t.explicit then (t, false)
    else (Prune(t.(explicit := t.explicit - {p}), p), true)
  }

  // ---------------------------------------------------------------- structure

  lemma {:induction false} PrefixClosed(t: Trie, p: Path, q: Path)
    requires WellFormed(t) && p in t.kids && Above(q, p)
    ensures q in t.kids
  {
    if q != p {
      PrefixClosed(t, p.up, q);
    }
  }

  /** Membership in a child list is being a node. */
  lemma ChildIsNode(t: Trie, q: Path, n: string)
    requires WellFormed(t) && q in t.kids
    ensures n in t.kids[q] <==> Node(q, n) in t.kids
    ensures Node(q, n) in t.kids ==> n != ""
  {
    assert Node(q, n).up == q;
  }

  lemma AttachWellFormed(t: Trie, q: Path, n: string)
    requires WellFormed(t) && q in t.kids && n != "" && Node(q, n) !in t.kids
    ensures WellFormed(Attach(t, q, n))
    ensures Attach(t, q, n).kids.Keys == t.kids.Keys + {Node(q, n)}
  {
    ChildIsNode(t, q, n);
    assert Attach(t, q, n).kids[q] == [n] + t.kids[q];
  }

  lemma DetachWellFormed(t: Trie, q: Path)
    requires WellFormed(t) && !Stops(t, q)
    ensures WellFormed(Detach(t, q))
    ensures Detach(t, q).kids.Keys == t.kids.Keys - {q}
  {
    WithoutMembers(t.kids[q.up], q.name);
    assert q.up != q;
  }

  // ---------------------------------------------------------------- canonical form

  /** Below every node of a canonical trie lies an explicit path. */
  lemma {:induction false} LeadsDown(t: Trie, p: Path, rest: set<Path>)
    requires WellFormed(t) && Canonical(t) && p in t.kids && p.Node?
    requires rest == set q | q in t.kids && Above(p, q)
    ensures Leads(t.explicit, p)
    decreases rest
  {
    if t.kids[p] != [] {
      var c := Node(p, t.kids[p][0]);
      ChildIsNode(t, p, t.kids[p][0]);
      var below := set q | q in t.kids && Above(c, q);
      forall q | q in below ensures q in rest && p !in below {
        AboveTransitive(p, c, q);
        if Above(c, p) {
          AboveDepth(c, p);
        }
      }
      assert p in rest;
      LeadsDown(t, c, below);
      var e :| e in t.explicit && Above(c, e);
      AboveTransitive(p, c, e);
    }
  }

  /** A node of a canonical trie is childless exactly when no explicit path lies strictly below. */
  lemma ChildlessMeans(t: Trie, q: Path)
    requires WellFormed(t) && q in t.kids
    ensures t.kids[q] == [] ==> forall e :: e in t.explicit && Above(q, e) ==> e == q
    ensures t.kids[q] != [] && Canonical(t) ==> exists e :: e in t.explicit && Above(q, e) && e != q
  {
    if t.kids[q] == [] {
      forall e | e in t.explicit && Above(q, e) ensures e == q {
        if e != q {
          PrefixClosed(t, e, Towards(q, e));
          ChildIsNode(t, q, Towards(q, e).name);
        }
      }
    } else if Canonical(t) {
      var c := Node(q, t.kids[q][0]);
      ChildIsNode(t, q, t.kids[q][0]);
      LeadsDown(t, c, set x | x in t.kids && Above(c, x));
      var e :| e in t.explicit && Above(c, e);
      AboveTransitive(q, c, e);
      AboveDepth(c, e);
    }
  }

  /** Canonical form: a well-formed trie is canonical exactly when its nodes are the root
      plus all prefixes of explicit paths. */
  lemma CanonicalForm(t: Trie)
    requires WellFormed(t)
    ensures Canonical(t) <==> forall p :: p in t.kids <==> p.Root? || Leads(t.explicit, p)
  {
    if Canonical(t) {
      forall p ensures p in t.kids <==> p.Root? || Leads(t.explicit, p) {
        if p in t.kids && p.Node? {
          LeadsDown(t, p, set q | q in t.kids && Above(p, q));
        }
        if Leads(t.explicit, p) {
          var e :| e in t.explicit && Above(p, e);
          PrefixClosed(t, e, p);
        }
      }
    } else {
      var p :| p in t.kids && p.Node? && t.kids[p] == [] && p !in t.explicit;
      ChildlessMeans(t, p);
    }
  }

  // ---------------------------------------------------------------- adding

  /** The part of `p` above its first empty token. */
  function Clean(p: Path): (q: Path)
    ensures Above(q, p) && Named(q)
    ensures q == p <==> Named(p)
    ensures forall a :: Above(a, p) && Named(a) ==> Above(a, q)
  {
    if p.Root? then p
    else if Clean(p.up) == p.up && p.name != "" then p
    else
      AboveDepth(Clean(p.up), p.up);
      Clean(p.up)
  }

  lemma {:induction false} GrowRefines(t: Trie, p: Path)
    requires WellFormed(t)
    ensures var (u, ok) := Grow(t, p);
            && WellFormed(u)
            && u.explicit == t.explicit
            && u.kids.Keys == t.kids.Keys + Prefixes(Clean(p))
            && (ok <==> Named(p))
  {
    if p in t.kids {
      NodesNamed(t, p);
      forall q | q in Prefixes(p) ensures q in t.kids {
        PrefixClosed(t, p, q);
      }
    } else {
      GrowRefines(t, p.up);
      var (u, ok) := Grow(t, p.up);
      if ok && p.name != "" {
        assert p !in u.kids by {
          if Above(p, p.up) {
            AboveDepth(p, p.up);
          }
        }
        AttachWellFormed(u, p.up, p.name);
      }
    }
  }

  lemma {:induction false} NodesNamed(t: Trie, p: Path)
    requires WellFormed(t) && p in t.kids
    ensures Named(p)
  {
    if p.Node? {
      NodesNamed(t, p.up);
    }
  }

  /** Adding refines set insertion: without an empty token it succeeds, the explicit set gains
      the path, the nodes gain its prefixes, and canonical form is kept. */
  lemma AddRefines(t: Trie, p: Path)
    requires WellFormed(t) && Named(p)
    ensures var (u, ok) := Add(t, p);
            && ok
            && WellFormed(u)
            && u.explicit == t.explicit + {p}
            && u.kids.Keys == t.kids.Keys + Prefixes(p)
            && (Canonical(t) ==> Canonical(u))
  {
    GrowRefines(t, p);
    assert p in Prefixes(p);
    var u := Add(t, p).0;
    if Canonical(t) {
      CanonicalForm(t);
      forall q | q in u.kids && q.Node? ensures Leads(u.explicit, q) {
        if q in t.kids {
          var e :| e in t.explicit && Above(q, e);
          assert e in u.explicit;
        } else {
          assert p in u.explicit && Above(q, p);
        }
      }
      AllLead(u);
    }
  }

  lemma AllLead(t: Trie)
    requires WellFormed(t)
    requires forall q :: q in t.kids && q.Node? ==> Leads(t.explicit, q)
    ensures Canonical(t)
  {
    forall q | Leads(t.explicit, q) ensures q in t.kids {
      var e :| e in t.explicit && Above(q, e);
      PrefixClosed(t, e, q);
    }
    CanonicalForm(t);
  }

  /** An add stopped by an empty token makes nothing explicit, and it keeps canonical form
      exactly when the prefix above the first empty token was already there. */
  lemma AddStopped(t: Trie, p: Path)
    requires WellFormed(t) && Canonical(t) && !Named(p)
    ensures var (u, ok) := Add(t, p);
            && !ok
            && WellFormed(u)
            && u.explicit == t.explicit
            && u.kids.Keys == t.kids.Keys + Prefixes(Clean(p))
            && (Canonical(u) <==> Clean(p) in t.kids)
  {
    GrowRefines(t, p);
    var u := Add(t, p).0;
    assert Clean(p) in Prefixes(Clean(p));
    CanonicalForm(t);
    if Clean(p) in t.kids {
      forall q | q in Prefixes(Clean(p)) ensures q in t.kids {
        PrefixClosed(t, Clean(p), q);
      }
      AllLead(u);
    } else {
      CanonicalForm(u);
    }
  }

  // ---------------------------------------------------------------- removing

  /** Only `q` may be a childless node that is not explicit. */
  ghost predicate CanonicalBut(t: Trie, q: Path) {
    forall p :: p in t.kids && p.Node? && t.kids[p] == [] && p !in t.explicit ==> p == q
  }

  lemma {:induction false} PruneRefines(t: Trie, q: Path)
    requires WellFormed(t) && q in t.kids && CanonicalBut(t, q)
    ensures var u := Prune(t, q);
            WellFormed(u) && Canonical(u) && u.explicit == t.explicit
    decreases q
  {
    if !Stops(t, q) {
      DetachWellFormed(t, q);
      PruneRefines(Detach(t, q), q.up);
    }
  }

  /** Removing refines set deletion: it succeeds exactly on explicit paths, deletes only that
      path, changes nothing on failure, and restores canonical form, so that the nodes left
      are again the root plus all prefixes of explicit paths. */
  lemma RemoveRefines(t: Trie, p: Path)
    requires WellFormed(t) && Canonical(t)
    ensures var (u, ok) := Remove(t, p);
            && (ok <==> p in t.explicit)
            && (!ok ==> u == t)
            && WellFormed(u) && Canonical(u)
            && u.explicit == t.explicit - {p}
  {
    if p in t.explicit {
      PruneRefines(t.(explicit := t.explicit - {p}), p);
    }
  }

  // ---------------------------------------------------------------- add then remove

  lemma DetachUndoesAttach(t: Trie, q: Path, n: string)
    requires WellFormed(t) && q in t.kids && n != "" && Node(q, n) !in t.kids
    ensures Detach(Attach(t, q, n), Node(q, n)) == t
  {
    assert ([n] + t.kids[q])[1..] == t.kids[q];
    assert Detach(Attach(t, q, n), Node(q, n)).kids == t.kids;
  }

  /** Pruning from a freshly grown path undoes the growth node by node and stops where the
      growth began: at an explicit, branching or root ancestor. */
  lemma {:induction false} PruneUndoesGrow(t: Trie, p: Path)
    requires WellFormed(t) && Canonical(t) && Named(p) && p !in t.kids
    ensures p in Grow(t, p).0.kids && Grow(t, p).0.kids[p] == []
    ensures Prune(Grow(t, p).0, p) == t
  {
    GrowRefines(t, p.up);
    var u := Grow(t, p.up).0;
    assert p !in u.kids by {
      if Above(p, p.up) {
        AboveDepth(p, p.up);
      }
    }
    DetachUndoesAttach(u, p.up, p.name);
    if p.up !in t.kids {
      PruneUndoesGrow(t, p.up);
    }
  }

  /** Adding a path that is not explicit and removing it again restores the identical trie,
      child order included. */
  lemma AddThenRemove(t: Trie, p: Path)
    requires WellFormed(t) && Canonical(t) && Named(p) && p !in t.explicit
    ensures Remove(Add(t, p).0, p) == (t, true)
  {
    GrowRefines(t, p);
    var u := Add(t, p).0;
    assert p in Prefixes(p);
    assert u.(explicit := u.explicit - {p}) == Grow(t, p).0;
    if p !in t.kids {
      PruneUndoesGrow(t, p);
    }
  }

  // ---------------------------------------------------------------- checking

  datatype CheckResult =
    | MatchRoot
    | FullMatchLeaf
    | FullMatchDir
    | SubMatchLeaf
    | SubMatchDir
    | MatchInode

  /** The answer path_store_check builds from where its search stopped. */
  function Verdict(atRoot: bool, childless: bool, full: bool): CheckResult {
    if atRoot && childless then MatchRoot
    else if full then (if childless then FullMatchLeaf else FullMatchDir)
    else (if childless then SubMatchLeaf else SubMatchDir)
  }

  /** `m` is the longest prefix of `p` that leads to an explicit path, or the root. */
  ghost predicate LongestKnown(explicit: set<Path>, p: Path, m: Path) {
    && Above(m, p)
    && (m.Root? || Leads(explicit, m))
    && forall q :: Above(q, p) && Leads(explicit, q) ==> Above(q, m)
  }

  /** `m` is explicit and nothing strictly below it is. */
  ghost predicate Leaf(explicit: set<Path>, m: Path) {
    m in explicit && forall e :: e in explicit && Above(m, e) ==> e == m
  }

  /** The same answer from the set of explicit paths alone. */
  ghost predicate Answers(explicit: set<Path>, p: Path, r: CheckResult) {
    exists m :: LongestKnown(explicit, p, m) &&
      r == if explicit <= {Root} then MatchRoot
           else if m == p then (if Leaf(explicit, m) then FullMatchLeaf else FullMatchDir)
           else (if Leaf(explicit, m) then SubMatchLeaf else SubMatchDir)
  }

  lemma {:induction false} DeepestIsLongest(t: Trie, p: Path)
    requires WellFormed(t)
    ensures Deepest(t, p) in t.kids && Above(Deepest(t, p), p)
    ensures forall q :: Above(q, p) && q in t.kids ==> Above(q, Deepest(t, p))
  {
    if p !in t.kids {
      DeepestIsLongest(t, p.up);
    }
  }

  lemma {:induction false} AboveRoot(p: Path)
    ensures Above(Root, p)
  {
    if p.Node? {
      AboveRoot(p.up);
    }
  }

  /** Checking refines the set specification, for every canonical trie and every query. */
  lemma CheckRefines(t: Trie, p: Path)
    requires WellFormed(t) && Canonical(t)
    ensures var m := Deepest(t, p);
            m in t.kids && Answers(t.explicit, p, Verdict(m.Root?, t.kids[m] == [], m == p))
  {
    DeepestIsLongest(t, p);
    CanonicalForm(t);
    var m := Deepest(t, p);
    assert LongestKnown(t.explicit, p, m);
    ChildlessMeans(t, m);
    if m.Root? {
      forall e | e in t.explicit ensures Above(Root, e) {
        AboveRoot(e);
      }
    } else {
      var e :| e in t.explicit && Above(m, e);
      assert e != Root;
    }
  }

  /** The answers in plain words, without the longest known prefix: LEAF is an explicit path with
      nothing explicit below it, the query itself or an ancestor; DIR is everything else. */
  lemma AnswersMean(explicit: set<Path>, p: Path, r: CheckResult)
    requires Answers(explicit, p, r)
    ensures r == MatchRoot <==> explicit <= {Root}
    ensures r == FullMatchLeaf <==> !(explicit <= {Root}) && Leaf(explicit, p)
    ensures r == FullMatchDir <==> !(explicit <= {Root}) && exists e :: e in explicit && Above(p, e) && e != p
    ensures r == SubMatchLeaf <==> !(explicit <= {Root}) && exists e :: Leaf(explicit, e) && Above(e, p) && e != p
    ensures r in {MatchRoot, FullMatchLeaf, FullMatchDir, SubMatchLeaf, SubMatchDir}
  {
    if !(explicit <= {Root}) {
      var m :| LongestKnown(explicit, p, m) &&
               r == if m == p then (if Leaf(explicit, m) then FullMatchLeaf else FullMatchDir)
                    else (if Leaf(explicit, m) then SubMatchLeaf else SubMatchDir);
      FullMeans(explicit, p, m);
      SubMeans(explicit, p, m);
    }
  }

  lemma FullMeans(explicit: set<Path>, p: Path, m: Path)
    requires LongestKnown(explicit, p, m) && !(explicit <= {Root})
    ensures Leaf(explicit, p) ==> m == p
    ensures m == p && !Leaf(explicit, p) <==> exists e :: e in explicit && Above(p, e) && e != p
  {
    var x :| x in explicit && x != Root;
    AboveRoot(x);
    if Leads(explicit, p) {
      AboveBoth(m, p);
    }
  }

  lemma SubMeans(explicit: set<Path>, p: Path, m: Path)
    requires LongestKnown(explicit, p, m)
    ensures m != p && Leaf(explicit, m) <==> exists e :: Leaf(explicit, e) && Above(e, p) && e != p
  {
    if exists e :: Leaf(explicit, e) && Above(e, p) && e != p {
      var e :| Leaf(explicit, e) && Above(e, p) && e != p;
      assert Leads(explicit, e);
      if Leads(explicit, m) {
        var x :| x in explicit && Above(m, x);
        AboveTransitive(e, m, x);
        AboveBoth(e, m);
      } else {
        AboveRoot(e);
        AboveBoth(e, m);
      }
    }
  }

  lemma AboveBoth(a: Path, b: Path)
    requires Above(a, b) && Above(b, a)
    ensures a == b
  {
    AboveDepth(a, b);
    AboveDepth(b, a);
  }

  /** The set specification fixes the answer. */
  lemma AnswerIsUnique(explicit: set<Path>, p: Path, r1: CheckResult, r2: CheckResult)
    requires Answers(explicit, p, r1) && Answers(explicit, p, r2)
    ensures r1 == r2
  {
    forall m, n | LongestKnown(explicit, p, m) && LongestKnown(explicit, p, n) ensures m == n {
      AboveRoot(m);
      AboveRoot(n);
      AboveDepth(m, n);
      AboveDepth(n, m);
    }
  }

  // ---------------------------------------------------------------- the loops, step by step

  /** One turn of the insert loop: linking the next missing node leaves the goal unchanged. */
  lemma {:induction false} GrowStep(t: Trie, q: Path, n: string, p: Path)
    requires WellFormed(t) && q in t.kids && n != "" && Node(q, n) !in t.kids && Above(Node(q, n), p)
    ensures Grow(t, p) == Grow(Attach(t, q, n), p)
  {
    if p in t.kids {
      PrefixClosed(t, p, Node(q, n));
    } else if p != Node(q, n) {
      GrowStep(t, q, n, p.up);
    }
  }

  /** The insert loop stops at an empty token. */
  lemma {:induction false} GrowStopped(t: Trie, q: Path, p: Path)
    requires WellFormed(t) && q in t.kids && Above(Node(q, ""), p)
    ensures Grow(t, p) == (t, false)
  {
    NotNamed(q, p);
    if p in t.kids {
      NodesNamed(t, p);
    } else if p != Node(q, "") {
      GrowStopped(t, q, p.up);
    }
  }

  lemma GrowStoppedAt(t: Trie, tokens: seq<string>, d: nat)
    requires WellFormed(t) && d < |tokens| && PathAt(tokens, d) in t.kids && tokens[d] == ""
    ensures Grow(t, PathOf(tokens)) == (t, false)
  {
    PathAtAbove(tokens, d + 1, |tokens|);
    GrowStopped(t, PathAt(tokens, d), PathOf(tokens));
  }

  lemma {:induction false} NotNamed(q: Path, p: Path)
    requires Above(Node(q, ""), p)
    ensures !Named(p)
  {
    if p != Node(q, "") {
      NotNamed(q, p.up);
    }
  }

  /** The search stops at the last node before the first missing one. */
  lemma {:induction false} DeepestAt(t: Trie, q: Path, n: string, p: Path)
    requires WellFormed(t) && q in t.kids && Node(q, n) !in t.kids && Above(Node(q, n), p)
    ensures Deepest(t, p) == q
  {
    if p in t.kids {
      PrefixClosed(t, p, Node(q, n));
    } else if p != Node(q, n) {
      DeepestAt(t, q, n, p.up);
    }
  }
}
