/** Symlinks break the symmetry of the rounds: store_iterate_add raises what a symlink
    resolves to, store_iterate_rm does not lower it.  This module says exactly when an add
    followed by a remove still restores every count. */
module SymlinkRounds {
  import opened Paths
  import opened Lists
  import opened InodeTable
  import opened Rounds
  import opened RoundFacts
  import opened Index
  import opened Wrappers

  /** A finished raising round in a world without hard links. */
  ghost predicate RaiseDone(r: Round, root: Path, expanded: List<Path>) {
    && r.mode == Raise && r.world.WellFormed() && NoHardLinks(r.world) && Starts(r)
    && root in r.world.ino && r.Tracks(root, [], expanded)
  }

  /** The encounters of a dentry and its expansions. */
  lemma Expansions(r: Round, root: Path, expanded: List<Path>, d: Path)
    requires RaiseDone(r, root, expanded) && d in r.world.ino
    ensures var n := Bag(r.world.Met(root, expanded))[d];
            && Occ(r.world, r.world.Met(root, expanded), r.world.ino[d]) == n
            && Bag(expanded)[d] == Expanded(r, r.world.ino[d], n)
  {
    var met := r.world.Met(root, expanded);
    forall e | e in Bag(met) ensures e in r.world.ino {
      r.MetIn(root, expanded, e);
    }
    r.PushedWereMet(met);
    OccIsCount(r.world, met, d);
    OccIsCount(r.world, r.Pushed(met), d);
    RaiseExpansions(r, met, r.world.ino[d]);
    assert Bag(expanded) + multiset([]) == Bag(expanded);
  }

  /** `l` is a symlink that resolves to `d`. */
  predicate LinksTo(w: World, l: Path, d: Path) {
    l in w.link && w.link[l] == Some(d)
  }

  /** Every symlink below `root` resolves to something below `root` that is counted already. */
  ghost predicate LinksStayInside(w: World, root: Path, t: Table) {
    forall l, d {:trigger LinksTo(w, l, d)} ::
      LinksTo(w, l, d) && Above(root, l) ==> Above(root, d) && w.Of(d) in t.entries
  }

  /** How many of the expanded dentries are symlinks to `d`. */
  function LinkExpansions(w: World, expanded: List<Path>, d: Path): nat {
    match expanded
    case Nil => 0
    case Snoc(init, e) => LinkExpansions(w, init, d) + if LinksTo(w, e, d) then 1 else 0
  }

  lemma NextCountLinks(w: World, e: Path, d: Path)
    requires w.WellFormed() && d in w.ino
    ensures Bag(w.Next(e))[d] == (if d.Node? && d.up == e then 1 else 0) + if LinksTo(w, e, d) then 1 else 0
  {
    if e !in w.link {
      NextCount(w, e, d);
    }
  }

  /** A dentry is looked at once per expansion of its parent and of a symlink to it. */
  lemma {:induction false} MetCountLinks(w: World, root: Path, expanded: List<Path>, d: Path)
    requires w.WellFormed() && d in w.ino
    ensures Bag(w.Met(root, expanded))[d] == (if d == root then 1 else 0)
              + (if d.Node? then Bag(expanded)[d.up] else 0) + LinkExpansions(w, expanded, d)
  {
    if expanded.Snoc? {
      MetCountLinks(w, root, expanded.init, d);
      BagAppend(w.Met(root, expanded.init), w.Next(expanded.last));
      NextCountLinks(w, expanded.last, d);
    }
  }

  /** Everything below the root is expanded. */
  lemma {:induction false} AllExpanded(r: Round, root: Path, expanded: List<Path>, d: Path)
    requires RaiseDone(r, root, expanded) && d in r.world.ino && Above(root, d)
    ensures Bag(r.world.Met(root, expanded))[d] > 0 && Bag(expanded)[d] > 0
  {
    MetCountLinks(r.world, root, expanded, d);
    if d != root {
      AllExpanded(r, root, expanded, d.up);
    }
    Expansions(r, root, expanded, d);
  }

  lemma {:induction false} LinkExpanded(w: World, expanded: List<Path>, l: Path, d: Path)
    requires LinksTo(w, l, d) && l in Bag(expanded)
    ensures LinkExpansions(w, expanded, d) > 0
  {
    if expanded.last != l {
      LinkExpanded(w, expanded.init, l, d);
    }
  }

  /** While the symlinks stay inside, so does the round. */
  lemma {:induction false} StaysBelow(w: World, root: Path, expanded: List<Path>, t: Table, d: Path)
    requires w.WellFormed() && LinksStayInside(w, root, t) && w.Ordered(root, expanded)
    requires d in Bag(w.Met(root, expanded))
    ensures Above(root, d)
  {
    match expanded
    case Nil =>
    case Snoc(init, e) =>
      BagAppend(w.Met(root, init), w.Next(e));
      if d in Bag(w.Next(e)) {
        StaysBelow(w, root, init, t, e);
        if e in w.link {
          assert LinksTo(w, e, d);
        } else {
          w.PositiveIn(e, w.subdirs[e], |w.subdirs[e]|, d);
        }
      } else {
        StaysBelow(w, root, init, t, d);
      }
  }

  lemma {:induction false} NoLinkExpansion(w: World, root: Path, expanded: List<Path>, t: Table, d: Path)
    requires w.WellFormed() && LinksStayInside(w, root, t) && d in w.ino && w.ino[d] !in t.entries
    requires forall e :: e in Bag(expanded) ==> Above(root, e)
    ensures LinkExpansions(w, expanded, d) == 0
  {
    if expanded.Snoc? {
      assert expanded.last in Bag(expanded) && forall e :: e in Bag(expanded.init) ==> e in Bag(expanded);
      NoLinkExpansion(w, root, expanded.init, t, d);
    }
  }

  /** While the symlinks stay inside, a fresh dentry below the root is met exactly once. */
  lemma {:induction false} FreshMetOnce(r: Round, root: Path, expanded: List<Path>, d: Path)
    requires RaiseDone(r, root, expanded) && r.world.Narrow() && LinksStayInside(r.world, root, r.before)
    requires d in r.world.ino && Above(root, d) && r.world.ino[d] !in r.before.entries
    ensures Bag(r.world.Met(root, expanded))[d] == 1
  {
    FreshEntrance(r, root, expanded, d);
    if d != root {
      AllExpanded(r, root, expanded, d.up);
      Expansions(r, root, expanded, d.up);
      if r.world.ino[d.up] !in r.before.entries {
        FreshMetOnce(r, root, expanded, d.up);
      }
    }
  }

  /** It is met through its parent only. */
  lemma FreshEntrance(r: Round, root: Path, expanded: List<Path>, d: Path)
    requires RaiseDone(r, root, expanded) && LinksStayInside(r.world, root, r.before)
    requires d in r.world.ino && Above(root, d) && r.world.ino[d] !in r.before.entries
    ensures Bag(r.world.Met(root, expanded))[d] == if d == root then 1 else Bag(expanded)[d.up]
  {
    var w := r.world;
    r.PushedWereMet(w.Met(root, expanded));
    forall e | e in Bag(expanded) ensures Above(root, e) {
      assert e in Bag(expanded) + multiset([]);
      StaysBelow(w, root, expanded, r.before, e);
    }
    NoLinkExpansion(w, root, expanded, r.before, d);
    MetCountLinks(w, root, expanded, d);
    if d == root && d.Node? && Above(root, d.up) {
      AboveDepth(root, d.up);
    }
  }

  /** The count of `d` after a raising round. */
  lemma RaisedCount(r: Round, root: Path, expanded: List<Path>, t: Table, d: Path)
    requires RaiseDone(r, root, expanded) && r.world.Narrow() && t == r.After(r.world.Met(root, expanded)) && d in r.world.ino
    ensures var n := Bag(r.world.Met(root, expanded))[d];
            CountOf(t, r.world.ino[d]) ==
            if n == 0 then CountOf(r.before, r.world.ino[d])
            else if r.world.ino[d] in r.before.entries then CountOf(r.before, r.world.ino[d]) + 1
            else r.junk(r.world.ino[d]) + if n == 1 then 1 else 2
  {
    Expansions(r, root, expanded, d);
    RaiseEntries(r, r.world.Met(root, expanded), r.world.ino[d]);
    assert EntryOf(t, r.world.ino[d]) == Raised(r, r.world.ino[d], Bag(r.world.Met(root, expanded))[d]);
  }

  /** The entry of `k` after a lowering round. */
  lemma LoweredEntry(r: Round, root: Path, expanded: List<Path>, t: Table, k: Key)
    requires r.mode == Lower && r.world.WellFormed() && NoHardLinks(r.world) && Starts(r) && Done(r, root, expanded, t) && root !in r.world.link
    ensures EntryOf(t, k) ==
            if exists d :: d in r.world.ino && r.world.ino[d] == k && Above(root, d) then Visited(r, k)
            else EntryOf(r.before, k)
  {
    TrackedLinkless(r, root, [], expanded);
    TreeRound(r, root, expanded, k);
  }

  lemma LoweredVisit(r: Round, k: Key)
    requires r.mode == Lower && Starts(r)
    ensures var c := CountOf(r.before, k);
            (match Visited(r, k) case None => 0 case Some(e) => e.refCount) == if c > 0 then c - 1 else 0
  {
  }

  lemma LoweredCount(r: Round, root: Path, expanded: List<Path>, t: Table, d: Path)
    requires r.mode == Lower && r.world.WellFormed() && NoHardLinks(r.world) && Starts(r) && Done(r, root, expanded, t) && root !in r.world.link
    requires d in r.world.ino
    ensures var c := CountOf(r.before, r.world.ino[d]);
            CountOf(t, r.world.ino[d]) == if Above(root, d) && c > 0 then c - 1 else c
  {
    var k := r.world.ino[d];
    LoweredEntry(r, root, expanded, t, k);
    LoweredVisit(r, k);
    assert EntryOf(t, k) == if Above(root, d) then Visited(r, k) else EntryOf(r.before, k);
  }

  lemma OutsideKeys(r: Round, root: Path, expanded: List<Path>, k: Key)
    requires RaiseDone(r, root, expanded) && k !in r.world.ino.Values
    ensures EntryOf(r.After(r.world.Met(root, expanded)), k) == EntryOf(r.before, k)
  {
    var met := r.world.Met(root, expanded);
    OccIn(r.world, met, k);
    forall e | e in Bag(met) ensures e in r.world.ino {
      r.MetIn(root, expanded, e);
    }
    Untouched(r, met, k);
  }

  /** An add round and then a remove round from a root that is no symlink restore every count
      exactly when every symlink below the root resolves to something below the root that was
      counted before (memory being zeroed and inodes having one dentry each). */
  lemma RoundTripWithLinks(up: Round, down: Round, root: Path, expanded: List<Path>, lowered: List<Path>, t: Table)
    requires RaiseDone(up, root, expanded) && up.world.Narrow() && down.before == up.After(up.world.Met(root, expanded))
    requires down.mode == Lower && down.world == up.world && Starts(down) && Done(down, root, lowered, t) && root !in up.world.link
    requires forall k :: up.junk(k) == 0
    ensures (forall k :: CountOf(t, k) == CountOf(up.before, k)) <==> LinksStayInside(up.world, root, up.before)
  {
    if LinksStayInside(up.world, root, up.before) {
      forall k ensures CountOf(t, k) == CountOf(up.before, k) {
        RestoredKey(up, down, root, expanded, lowered, t, k);
      }
    } else {
      var l, d :| LinksTo(up.world, l, d) && Above(root, l) && !(Above(root, d) && up.world.Of(d) in up.before.entries);
      NotRestored(up, root, expanded, l, d);
      LoweredCount(down, root, lowered, t, d);
    }
  }

  lemma RestoredKey(up: Round, down: Round, root: Path, expanded: List<Path>, lowered: List<Path>, t: Table, k: Key)
    requires RaiseDone(up, root, expanded) && up.world.Narrow() && down.before == up.After(up.world.Met(root, expanded))
    requires down.mode == Lower && down.world == up.world && Starts(down) && Done(down, root, lowered, t) && root !in up.world.link
    requires (forall j :: up.junk(j) == 0) && LinksStayInside(up.world, root, up.before)
    ensures CountOf(t, k) == CountOf(up.before, k)
  {
    if k in up.world.ino.Values {
      var d :| d in up.world.ino && up.world.ino[d] == k;
      Restored(up, root, expanded, d);
      LoweredCount(down, root, lowered, t, d);
    } else {
      OutsideKeys(up, root, expanded, k);
      LoweredEntry(down, root, lowered, t, k);
      assert EntryOf(t, k) == EntryOf(up.before, k);
    }
  }

  lemma Restored(up: Round, root: Path, expanded: List<Path>, d: Path)
    requires RaiseDone(up, root, expanded) && up.world.Narrow() && d in up.world.ino
    requires LinksStayInside(up.world, root, up.before)
    requires forall k :: up.junk(k) == 0
    ensures CountOf(up.After(up.world.Met(root, expanded)), up.world.ino[d]) ==
            CountOf(up.before, up.world.ino[d]) + if Above(root, d) then 1 else 0
  {
    var met := up.world.Met(root, expanded);
    RaisedCount(up, root, expanded, up.After(met), d);
    if Above(root, d) {
      AllExpanded(up, root, expanded, d);
      if up.world.ino[d] !in up.before.entries {
        FreshMetOnce(up, root, expanded, d);
      }
    } else if d in Bag(met) {
      StaysBelow(up.world, root, expanded, up.before, d);
    }
  }

  lemma NotRestored(up: Round, root: Path, expanded: List<Path>, l: Path, d: Path)
    requires RaiseDone(up, root, expanded) && up.world.Narrow() && LinksTo(up.world, l, d) && Above(root, l)
    requires !(Above(root, d) && up.world.Of(d) in up.before.entries) && forall k :: up.junk(k) == 0
    ensures d in up.world.ino
    ensures CountOf(up.After(up.world.Met(root, expanded)), up.world.ino[d]) >
            CountOf(up.before, up.world.ino[d]) + if Above(root, d) then 1 else 0
  {
    var w, met := up.world, up.world.Met(root, expanded);
    AllExpanded(up, root, expanded, l);
    LinkExpanded(w, expanded, l, d);
    MetCountLinks(w, root, expanded, d);
    RaisedCount(up, root, expanded, up.After(met), d);
    if Above(root, d) && d != root {
      AllExpanded(up, root, expanded, d.up);
    }
  }
}
