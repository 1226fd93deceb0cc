/** The linked entries of path_store.c: parent links, child lists, the packed
    children_num word and the allocations list, all changed in place.  Every method is
    proved against the value-level trie. */
module PathTrie {
  import opened Paths
  import opened Trie

  /** The top bit of children_num: the path of this entry was added explicitly. */
  const EXPLICITED_PATH_MASK: nat := 0x8000_0000_0000_0000

  class StoreEntry {
    const dirName: string
    ghost const path: Path   // where this entry sits
    var parent: StoreEntry?
    var children: seq<StoreEntry>
    var childrenNum: nat

    constructor (dirName: string, ghost path: Path)
      ensures this.dirName == dirName && this.path == path && parent == null && children == [] && childrenNum == 0
    {
      this.dirName, this.path := dirName, path;
      parent, children, childrenNum := null, [], 0;
    }
  }

  /** An entry at `p` with these links agrees with the trie, and its packed word holds the
      length of the child list below the explicit bit. */
  ghost predicate Fits(at: map<Path, StoreEntry>, t: Trie, p: Path,
                       parent: StoreEntry?, children: seq<StoreEntry>, childrenNum: nat)
  {
    match t
    case Trie(kids, explicit) =>
      && p in kids
      && (p.Node? ==> p.up in at && parent == at[p.up])
      && |children| == |kids[p]| < EXPLICITED_PATH_MASK
      && (forall i :: 0 <= i < |children| ==>
            Node(p, kids[p][i]) in at && at[Node(p, kids[p][i])] == children[i])
      && childrenNum == |children| + if p in explicit then EXPLICITED_PATH_MASK else 0
  }

  /** Linking `child` under `q` keeps every other entry in place. */
  lemma FitsElsewhere(at: map<Path, StoreEntry>, t: Trie, q: Path, child: StoreEntry, p: Path,
                      parent: StoreEntry?, children: seq<StoreEntry>, childrenNum: nat)
    requires Fits(at, t, p, parent, children, childrenNum) && p != q && q in t.kids
    requires t.kids.Keys == at.Keys && Node(q, child.dirName) !in at
    ensures Fits(at[Node(q, child.dirName) := child], Attach(t, q, child.dirName), p, parent, children, childrenNum)
  {
  }

  /** Linking `child` at the head of the children of `q`, seen from `q`. */
  lemma FitsHead(at: map<Path, StoreEntry>, t: Trie, q: Path, child: StoreEntry,
                 parent: StoreEntry?, children: seq<StoreEntry>, childrenNum: nat)
    requires Fits(at, t, q, parent, children, childrenNum)
    requires |children| + 1 < EXPLICITED_PATH_MASK
    requires t.kids.Keys == at.Keys && Node(q, child.dirName) !in at
    ensures Fits(at[Node(q, child.dirName) := child], Attach(t, q, child.dirName), q,
                 parent, [child] + children, childrenNum + 1)
  {
  }

  /** Unlinking the node `q` leaves every entry but its parent's as it was. */
  lemma FitsApart(at: map<Path, StoreEntry>, t: Trie, q: Path, p: Path,
                  parent: StoreEntry?, children: seq<StoreEntry>, childrenNum: nat)
    requires Fits(at, t, p, parent, children, childrenNum)
    requires q.Node? && q.up in t.kids && p != q && p != q.up && (p.Node? ==> p.up != q)
    ensures Fits(at - {q}, Detach(t, q), p, parent, children, childrenNum)
  {
  }

  /** Unlinking the node `q`, seen from its parent. */
  lemma FitsWithout(at: map<Path, StoreEntry>, t: Trie, q: Path,
                    parent: StoreEntry?, children: seq<StoreEntry>, childrenNum: nat)
    requires q.Node? && q in at && Fits(at, t, q.up, parent, children, childrenNum)
    requires Distinct(t.kids[q.up]) && q.name in t.kids[q.up]
    requires forall n :: Node(q.up, n) in at && at[Node(q.up, n)] == at[q] ==> n == q.name
    requires q.up.Node? ==> q.up.up != q
    ensures children != []
    ensures Fits(at - {q}, Detach(t, q), q.up, parent, Without(children, at[q]), childrenNum - 1)
  {
    var names := t.kids[q.up];
    var k :| 0 <= k < |names| && names[k] == q.name;
    WithoutAt(children, at[q], k);
    WithoutAt(names, q.name, k);
  }

  /** The allocations list holds exactly the live entries, each once. */
  ghost predicate Live(at: map<Path, StoreEntry>, allocations: seq<StoreEntry>)
  {
    && Distinct(allocations)
    && (forall p {:trigger at[p]} :: p in at ==> at[p].path == p && at[p] in allocations)
    && (forall i :: 0 <= i < |allocations| ==> allocations[i].path in at && at[allocations[i].path] == allocations[i])
  }

  lemma LiveMore(at: map<Path, StoreEntry>, allocations: seq<StoreEntry>, e: StoreEntry)
    requires Live(at, allocations) && e.path !in at
    ensures Live(at[e.path := e], [e] + allocations)
  {
  }

  lemma LiveLess(at: map<Path, StoreEntry>, allocations: seq<StoreEntry>, e: StoreEntry)
    requires Live(at, allocations) && e.path in at && at[e.path] == e
    ensures Live(at - {e.path}, Without(allocations, e))
  {
    WithoutMembers(allocations, e);
    var left := Without(allocations, e);
    forall p | p in at && p != e.path ensures at[p] in left {
      var i :| 0 <= i < |allocations| && allocations[i] == at[p];
    }
  }

  class PathTrie {
    const root: StoreEntry
    var allocations: seq<StoreEntry>
    ghost var view: Trie                  // the trie these entries represent
    ghost var at: map<Path, StoreEntry>   // the entry of every node

    ghost predicate Represents(t: Trie, p: Path)
      requires p in at
      reads this`at, at[p]
    {
      match t
      case Trie(_, _) =>
        var e := at[p];
        && (p.Node? ==> e.dirName == p.name)
        && Fits(at, t, p, e.parent, e.children, e.childrenNum)
    }

    /** The entries represent the trie `t`. */
    ghost predicate Represented(t: Trie)
      reads this`at, at.Values
    {
      match t
      case Trie(kids, explicit) =>
        && kids.Keys == at.Keys && explicit <= at.Keys
        && Root in at && at[Root] == root
        && (forall p {:trigger Represents(t, p)} :: p in at ==> Represents(t, p))
    }

    /** Every entry of `before` is still where it was, and the others are new. */
    twostate predicate Grows(before: map<Path, StoreEntry>)
      reads this`at
    {
      && (forall p {:trigger before[p]} :: p in before ==> p in at && at[p] == before[p])
      && (forall p {:trigger at[p]} :: p in at && p !in before ==> fresh(at[p]))
    }

    ghost predicate Linked()
      reads this, at.Values
    {
      Represented(view) && Live(at, allocations)
    }

    ghost predicate Valid()
      reads this, at.Values
    {
      Linked() && WellFormed(view)
    }

    constructor ()
      ensures Valid() && view == EMPTY && allocations == [root] && fresh(root)
    {
      root := new StoreEntry("/", Root);
      new;
      allocations := [root];
      at := map[Root := root];
      view := EMPTY;
    }

    // -------------------------------------------------------------- searching

    /** strcmp over the children of `cur`: the child called `name`, if any. */
    method FindChild(cur: StoreEntry, name: string, ghost q: Path) returns (child: StoreEntry?)
      requires Valid() && q in at && at[q] == cur
      ensures child == null <==> Node(q, name) !in at
      ensures child != null ==> child == at[Node(q, name)] && name != ""
    {
      assert Represents(view, q);
      var i := 0;
      while i < |cur.children|
        invariant 0 <= i <= |cur.children|
        invariant forall k :: 0 <= k < i ==> view.kids[q][k] != name
      {
        assert Represents(view, Node(q, view.kids[q][i]));
        if cur.children[i].dirName == name {
          ChildIsNode(view, q, name);
          return cur.children[i];
        }
        i := i + 1;
      }
      ChildIsNode(view, q, name);
      child := null;
    }

    /** One step of the search: the child for the next token.  For "/" the loop compares with a
        stale token; that token is empty, so no child matches it. */
    method Descend(cur: StoreEntry, deepness: nat, tokens: seq<string>, stale: string) returns (child: StoreEntry?)
      requires Valid() && deepness <= |tokens| && PathAt(tokens, deepness) in at && at[PathAt(tokens, deepness)] == cur
      requires deepness == |tokens| ==> stale == ""
      ensures child == null ==> deepness < |tokens| ==> PathAt(tokens, deepness + 1) !in at
      ensures child != null ==>
                deepness < |tokens| && PathAt(tokens, deepness + 1) in at && child == at[PathAt(tokens, deepness + 1)]
    {
      var token := if deepness < |tokens| then tokens[deepness] else stale;
      child := FindChild(cur, token, PathAt(tokens, deepness));
    }

    /** PATH_SEARCH_LOOP */
    method Search(start: StoreEntry, from: nat, tokens: seq<string>, stale: string)
      returns (cur: StoreEntry, deepness: nat)
      requires Valid() && from <= |tokens| && PathAt(tokens, from) in at && at[PathAt(tokens, from)] == start
      requires from == |tokens| ==> stale == ""
      ensures from <= deepness && Stuck(tokens, cur, deepness)
      ensures from < |tokens| && PathAt(tokens, from + 1) in at ==> from < deepness
    {
      cur, deepness := start, from;
      while true
        invariant from <= deepness <= |tokens| && (deepness == |tokens| ==> from == deepness)
        invariant PathAt(tokens, deepness) in at && cur == at[PathAt(tokens, deepness)]
        decreases |tokens| - deepness
      {
        var child := Descend(cur, deepness, tokens, stale);
        if child == null {
          break;
        }
        cur, deepness := child, deepness + 1;
        if deepness == |tokens| {
          break;
        }
      }
    }

    // -------------------------------------------------------------- inserting

    /** Links the new entry `child` at the head of the children of `cur` and of the
        allocations. */
    method LinkChild(cur: StoreEntry, child: StoreEntry, ghost q: Path)
      requires Represented(view) && q in at && at[q] == cur && at[q].path == q
      requires forall p {:trigger at[p]} :: p in at ==> at[p].path == p
      requires child.path == Node(q, child.dirName) && child.path !in at
      requires child.children == [] && child.childrenNum == 0
      requires |cur.children| + 1 < EXPLICITED_PATH_MASK
      modifies this`allocations, this`at, this`view, cur, child
      ensures Represented(view) && view == Attach(old(view), q, child.dirName)
      ensures at == old(at)[child.path := child] && allocations == [child] + old(allocations)
    {
      ghost var before, t := at, view;
      assert Represents(t, q);
      FitsHead(at, t, q, child, cur.parent, cur.children, cur.childrenNum);
      cur.children := [child] + cur.children;
      allocations := [child] + allocations;
      child.parent := cur;
      cur.childrenNum := cur.childrenNum + 1;
      at := at[child.path := child];
      view := Attach(t, q, child.dirName);
      forall p | p in at ensures Represents(view, p) {
        if p != child.path && p != q {
          assert old(Represents(t, p));
          FitsElsewhere(before, t, q, child, p, at[p].parent, at[p].children, at[p].childrenNum);
        }
      }
    }

    /** Allocates an entry called `name` and links it at the head of the children of `cur`. */
    method AttachChild(cur: StoreEntry, name: string, ghost q: Path)
      requires Linked() && q in at && at[q] == cur && Node(q, name) !in at
      requires |cur.children| + 1 < EXPLICITED_PATH_MASK
      modifies this`allocations, this`at, this`view, cur
      ensures Linked() && view == Attach(old(view), q, name)
      ensures Node(q, name) in at && fresh(at[Node(q, name)]) && at == old(at)[Node(q, name) := at[Node(q, name)]]
      ensures allocations == [at[Node(q, name)]] + old(allocations)
    {
      var child := new StoreEntry(name, Node(q, name));
      LiveMore(at, allocations, child);
      LinkChild(cur, child, q);
    }

    /** Where the insert loop stands: at the node of the first `deepness` tokens, with the
        next one missing. */
    ghost predicate Stuck(tokens: seq<string>, cur: StoreEntry, deepness: nat)
      reads this`at
    {
      && deepness <= |tokens|
      && PathAt(tokens, deepness) in at && cur == at[PathAt(tokens, deepness)]
      && (deepness < |tokens| ==> PathAt(tokens, deepness + 1) !in at)
    }

    /** One turn of the insert loop: link the missing token, then search on from there. */
    method InsertStep(start: StoreEntry, from: nat, tokens: seq<string>, stale: string)
      returns (cur: StoreEntry, deepness: nat)
      requires Valid() && Stuck(tokens, start, from) && from < |tokens| && tokens[from] != ""
      requires |allocations| + 1 < EXPLICITED_PATH_MASK
      modifies this`allocations, this`at, this`view, start
      ensures Valid() && Grows(old(at)) && Stuck(tokens, cur, deepness) && from < deepness
      ensures |allocations| == old(|allocations|) + 1
      ensures Grow(view, PathOf(tokens)) == Grow(old(view), PathOf(tokens))
    {
      ghost var q := PathAt(tokens, from);
      PathAtAbove(tokens, from + 1, |tokens|);
      Roomy(q);
      GrowStep(view, q, tokens[from], PathOf(tokens));
      AttachWellFormed(view, q, tokens[from]);
      AttachChild(start, tokens[from], q);
      cur, deepness := Search(start, from, tokens, stale);
    }

    /** The search-and-insert loop of path_store_add; false when an empty token stopped it. */
    method Insert(tokens: seq<string>, stale: string) returns (cur: StoreEntry, ok: bool)
      requires Valid() && (tokens == [] ==> stale == "")
      requires |allocations| + |tokens| < EXPLICITED_PATH_MASK
      modifies this`allocations, this`at, this`view, at.Values
      ensures Valid() && Grows(old(at))
      ensures (view, ok) == Grow(old(view), PathOf(tokens))
      ensures ok ==> PathOf(tokens) in at && cur == at[PathOf(tokens)]
    {
      var deepness;
      cur, deepness := Search(root, 0, tokens, stale);
      while deepness != |tokens|
        invariant Valid() && Grows(old(at)) && Stuck(tokens, cur, deepness)
        invariant Grow(view, PathOf(tokens)) == Grow(old(view), PathOf(tokens))
        invariant |allocations| - deepness <= old(|allocations|)
        decreases |tokens| - deepness
      {
        if tokens[deepness] == "" {
          GrowStoppedAt(view, tokens, deepness);
          ok := false;
          return;
        }
        cur, deepness := InsertStep(cur, deepness, tokens, stale);
      }
      ok := true;
    }

    lemma Roomy(q: Path)
      requires Valid() && q in at
      ensures |at[q].children| <= |allocations|
    {
      var cs := at[q].children;
      assert Represents(view, q);
      forall i, j | 0 <= i < j < |cs| ensures cs[i] != cs[j] {
        assert at[Node(q, view.kids[q][i])].path != at[Node(q, view.kids[q][j])].path;
      }
      DistinctFits(cs, allocations);
    }

    /** children_num |= EXPLICITED_PATH_MASK */
    method MarkExplicit(cur: StoreEntry, ghost p: Path)
      requires Valid() && p in at && at[p] == cur
      modifies this`view, cur`childrenNum
      ensures Valid() && view == old(view).(explicit := old(view).explicit + {p})
    {
      assert Represents(view, p);
      if cur.childrenNum < EXPLICITED_PATH_MASK {
        cur.childrenNum := cur.childrenNum + EXPLICITED_PATH_MASK;
      }
      ghost var before := view;
      view := view.(explicit := view.explicit + {p});
      forall q | q in at ensures Represents(view, q) {
        assert old(Represents(before, q));
      }
    }

    /** The trie half of path_store_add. */
    method AddPath(tokens: seq<string>, stale: string) returns (ok: bool)
      requires Valid() && (tokens == [] ==> stale == "")
      requires |allocations| + |tokens| < EXPLICITED_PATH_MASK
      modifies this`allocations, this`at, this`view, at.Values
      ensures Valid() && Grows(old(at))
      ensures (view, ok) == Add(old(view), PathOf(tokens))
    {
      var cur;
      cur, ok := Insert(tokens, stale);
      if ok {
        MarkExplicit(cur, PathOf(tokens));
      }
    }

    // -------------------------------------------------------------- removing

    /** The entry of an explicit path, if it is one. */
    method FindExplicit(tokens: seq<string>, stale: string) returns (cur: StoreEntry?)
      requires Valid() && (tokens == [] ==> stale == "")
      ensures cur == null <==> PathOf(tokens) !in view.explicit
      ensures cur != null ==> PathOf(tokens) in at && at[PathOf(tokens)] == cur
    {
      var found, deepness := Search(root, 0, tokens, stale);
      if deepness < |tokens| {
        PathAtAbove(tokens, deepness + 1, |tokens|);
        if PathOf(tokens) in at {
          PrefixClosed(view, PathOf(tokens), PathAt(tokens, deepness + 1));
        }
        return null;
      }
      assert Represents(view, PathOf(tokens));
      cur := if found.childrenNum < EXPLICITED_PATH_MASK then null else found;
    }

    /** children_num &= ~EXPLICITED_PATH_MASK */
    method ClearExplicit(cur: StoreEntry, ghost p: Path)
      requires Valid() && p in at && at[p] == cur
      modifies this`view, cur`childrenNum
      ensures Valid() && view == old(view).(explicit := old(view).explicit - {p})
    {
      assert Represents(view, p);
      if cur.childrenNum >= EXPLICITED_PATH_MASK {
        cur.childrenNum := cur.childrenNum - EXPLICITED_PATH_MASK;
      }
      ghost var before := view;
      view := view.(explicit := view.explicit - {p});
      forall q | q in at ensures Represents(view, q) {
        assert old(Represents(before, q));
      }
    }

    /** What every other entry is to fit once the entry of `q` is unlinked. */
    lemma DetachFits(q: Path)
      requires Represented(view) && q in at && !Stops(view, q) && q.up in at
      requires forall p {:trigger at[p]} :: p in at ==> at[p].path == p
      requires Distinct(view.kids[q.up]) && q.name in view.kids[q.up]
      requires forall p {:trigger p.up} :: p in at && p.Node? ==> p.up != q
      ensures at[q.up].childrenNum > 0
      ensures Fits(at - {q}, Detach(view, q), q.up, at[q.up].parent, Without(at[q.up].children, at[q]), at[q.up].childrenNum - 1)
      ensures forall p {:trigger at[p]} :: p in at && p != q ==>
                && (p.Node? ==> at[p].dirName == p.name)
                && (p != q.up ==> Fits(at - {q}, Detach(view, q), p, at[p].parent, at[p].children, at[p].childrenNum))
    {
      assert Represents(view, q) && Represents(view, q.up);
      FitsWithout(at, view, q, at[q.up].parent, at[q.up].children, at[q.up].childrenNum);
      forall p {:trigger at[p]} | p in at && p != q
        ensures p.Node? ==> at[p].dirName == p.name
        ensures p != q.up ==> Fits(at - {q}, Detach(view, q), p, at[p].parent, at[p].children, at[p].childrenNum)
      {
        assert Represents(view, p);
        if p != q.up {
          FitsApart(at, view, q, p, at[p].parent, at[p].children, at[p].childrenNum);
        }
      }
    }

    /** Unlinks the entry `cur` from the child list of its parent and from the allocations. */
    method UnlinkChild(cur: StoreEntry, parent: StoreEntry, ghost q: Path)
      requires Represented(view) && q in at && at[q] == cur && !Stops(view, q) && q.up in at && parent == at[q.up]
      requires forall p {:trigger at[p]} :: p in at ==> at[p].path == p
      requires Distinct(view.kids[q.up]) && q.name in view.kids[q.up]
      requires forall p {:trigger p.up} :: p in at && p.Node? ==> p.up != q
      modifies this`allocations, this`at, this`view, parent
      ensures Represented(view) && view == Detach(old(view), q) && at == old(at) - {q}
      ensures allocations == Without(old(allocations), cur)
    {
      DetachFits(q);
      ghost var left, t := at - {q}, Detach(view, q);
      parent.childrenNum := parent.childrenNum - 1;
      parent.children := Without(parent.children, cur);
      forall p {:trigger left[p]} | p in left
        ensures p.Node? ==> left[p].dirName == p.name
        ensures Fits(left, t, p, left[p].parent, left[p].children, left[p].childrenNum)
      {
        assert p != q.up ==> left[p] != parent;
      }
      allocations := Without(allocations, cur);
      Settle(left, t);
    }

    /** Takes note of what the entries have come to represent. */
    ghost method Settle(left: map<Path, StoreEntry>, t: Trie)
      requires t.kids.Keys == left.Keys && t.explicit <= left.Keys && Root in left && left[Root] == root
      requires forall p {:trigger left[p]} :: p in left ==>
                 && (p.Node? ==> left[p].dirName == p.name)
                 && Fits(left, t, p, left[p].parent, left[p].children, left[p].childrenNum)
      modifies this`at, this`view
      ensures Represented(t) && view == t && at == left
    {
      at, view := left, t;
    }

    /** One turn of the pruning loop. */
    method DetachLeaf(cur: StoreEntry, ghost q: Path) returns (parent: StoreEntry)
      requires Linked() && q in at && at[q] == cur && !Stops(view, q)
      requires Distinct(view.kids[q.up]) && q.name in view.kids[q.up]
      requires forall p {:trigger p.up} :: p in at && p.Node? ==> p.up != q
      modifies this`allocations, this`at, this`view, at[q.up]
      ensures Linked() && view == Detach(old(view), q) && at == old(at) - {q}
      ensures parent == at[q.up]
      ensures allocations == Without(old(allocations), cur)
    {
      assert Represents(view, q);
      parent := cur.parent;
      LiveLess(at, allocations, cur);
      UnlinkChild(cur, parent, q);
    }

    /** The second half of path_store_rm: deactivate the entry, then prune upwards. */
    method Delete(cur: StoreEntry, ghost p: Path)
      requires Valid() && p in at && at[p] == cur && p in view.explicit
      modifies this`allocations, this`at, this`view, at.Values
      ensures Valid() && view == Remove(old(view), p).0
      ensures forall q {:trigger at[q]} :: q in at ==> q in old(at) && at[q] == old(at)[q]
    {
      ClearExplicit(cur, p);
      ghost var q := p;
      var actualCurrent := cur;
      while true
        invariant Valid() && q in at && at[q] == actualCurrent
        invariant forall x {:trigger at[x]} :: x in at ==> x in old(at) && at[x] == old(at)[x]
        invariant Prune(view, q) == Remove(old(view), p).0
        decreases q
      {
        assert Represents(view, q) && (q.Node? ==> actualCurrent != root);
        if actualCurrent == root || actualCurrent.childrenNum != 0 {
          break;
        }
        DetachWellFormed(view, q);
        actualCurrent := DetachLeaf(actualCurrent, q);
        q := q.up;
      }
    }

    // -------------------------------------------------------------- cleaning up

    /** cleanup_path_store: walks the allocations, freeing each entry one step behind the
        walk.  Every live entry is freed, and none twice. */
    method Cleanup() returns (freed: seq<StoreEntry>)
      requires Live(at, allocations)
      modifies this`allocations
      ensures allocations == []
      ensures freed == old(allocations) && Live(at, freed)
    {
      freed := [];
      ghost var all := allocations;
      var prev: StoreEntry? := null;
      var i := 0;
      while i < |allocations|
        invariant i == if prev == null then 0 else 1
        invariant prev != null ==> allocations != [] && allocations[0] == prev
        invariant all == freed + allocations
        decreases |allocations| - i, prev == null
      {
        var tmp := allocations[i];
        if prev != null {
          freed := freed + [prev];
          allocations := allocations[1..];
        } else {
          i := i + 1;
        }
        prev := tmp;
      }
      if prev != null {
        freed := freed + [prev];
        allocations := allocations[1..];
      }
      assert freed == all;
    }
  }
}
