/** How often a raising round meets an inode, from the shape of the graph alone: an inode is met
    through its entrances, and one that is new to the table is counted once exactly when every
    new inode has a single entrance. */
module Entrances {
  import opened Paths
  import opened Lists
  import opened InodeTable
  import opened Rounds
  import opened RoundFacts
  import opened Wrappers

  // ---------------------------------------------------------------- occurrences

  lemma {:induction false} OccAppend(w: World, a: List<Path>, b: List<Path>, k: Key)
    ensures Occ(w, Append(a, b), k) == Occ(w, a, k) + Occ(w, b, k)
  {
    if b.Snoc? {
      OccAppend(w, a, b.init, k);
    }
  }

  /** `l` without its latest `d`. */
  function Drop(l: List<Path>, d: Path): List<Path> {
    match l
    case Nil => Nil
    case Snoc(init, last) => if last == d then init else Snoc(Drop(init, d), last)
  }

  lemma {:induction false} Dropped(w: World, l: List<Path>, d: Path, k: Key)
    requires d in Bag(l)
    ensures Bag(Drop(l, d)) == Bag(l) - multiset{d}
    ensures Occ(w, l, k) == Occ(w, Drop(l, d), k) + One(w.Of(d) == k)
  {
    var rest := Drop(l, d);
    if l.last != d {
      assert d in Bag(l.init);
      Dropped(w, l.init, d, k);
      assert Bag(rest) == Bag(Drop(l.init, d)) + multiset{l.last};
    }
  }

  lemma NilIsEmpty(l: List<Path>)
    ensures Bag(l) == multiset{} <==> l == Nil
  {
    if l.Snoc? {
      assert l.last in Bag(l);
    }
  }

  /** The order does not matter. */
  lemma {:induction false} OccSame(w: World, a: List<Path>, b: List<Path>, k: Key)
    requires Bag(a) == Bag(b)
    ensures Occ(w, a, k) == Occ(w, b, k)
  {
    if a.Nil? {
      NilIsEmpty(b);
    } else {
      assert a.last in Bag(a);
      Dropped(w, b, a.last, k);
      assert Bag(a.init) == Bag(a) - multiset{a.last};
      OccSame(w, a.init, Drop(b, a.last), k);
    }
  }

  // ---------------------------------------------------------------- encounters, by entrance

  /** An inode is met at least once for each expansion of an inode that leads to it. */
  lemma {:induction false} Entered(w: World, root: Path, expanded: List<Path>, j: Key, k: Key)
    requires forall e :: e in Bag(expanded) && w.Of(e) == j ==> Occ(w, w.Next(e), k) > 0
    ensures Occ(w, w.Met(root, expanded), k) >= One(w.Of(root) == k) + Occ(w, expanded, j)
  {
    match expanded
    case Nil => assert Occ(w, Snoc(Nil, root), k) == One(w.Of(root) == k);
    case Snoc(init, e) =>
      assert e in Bag(expanded) && forall x :: x in Bag(init) ==> x in Bag(expanded);
      Entered(w, root, init, j, k);
      OccAppend(w, w.Met(root, init), w.Next(e), k);
  }

  lemma {:induction false} EnteredTwice(w: World, root: Path, expanded: List<Path>, i: Key, j: Key, k: Key)
    requires i != j
    requires forall e :: e in Bag(expanded) && (w.Of(e) == i || w.Of(e) == j) ==> Occ(w, w.Next(e), k) > 0
    ensures Occ(w, w.Met(root, expanded), k) >= Occ(w, expanded, i) + Occ(w, expanded, j)
  {
    if expanded.Snoc? {
      var init, e := expanded.init, expanded.last;
      assert e in Bag(expanded) && forall x :: x in Bag(init) ==> x in Bag(expanded);
      EnteredTwice(w, root, init, i, j, k);
      OccAppend(w, w.Met(root, init), w.Next(e), k);
    }
  }

  lemma {:induction false} EnteredDouble(w: World, root: Path, expanded: List<Path>, e: Path, k: Key)
    requires e in Bag(expanded)
    ensures Occ(w, w.Met(root, expanded), k) >= Occ(w, w.Next(e), k)
  {
    OccAppend(w, w.Met(root, expanded.init), w.Next(expanded.last), k);
    if e != expanded.last {
      EnteredDouble(w, root, expanded.init, e, k);
    }
  }

  /** And no more often, when only `j` leads to it, and once. */
  lemma {:induction false} EnteredOnly(w: World, root: Path, expanded: List<Path>, j: Key, k: Key)
    requires forall e :: e in Bag(expanded) ==> Occ(w, w.Next(e), k) <= One(w.Of(e) == j)
    ensures Occ(w, w.Met(root, expanded), k) <= One(w.Of(root) == k) + Occ(w, expanded, j)
  {
    match expanded
    case Nil => assert Occ(w, Snoc(Nil, root), k) == One(w.Of(root) == k);
    case Snoc(init, e) =>
      assert e in Bag(expanded) && forall x :: x in Bag(init) ==> x in Bag(expanded);
      EnteredOnly(w, root, init, j, k);
      OccAppend(w, w.Met(root, init), w.Next(e), k);
  }

  lemma {:induction false} EnteredNever(w: World, root: Path, expanded: List<Path>, k: Key)
    requires forall e :: e in Bag(expanded) ==> Occ(w, w.Next(e), k) == 0
    ensures Occ(w, w.Met(root, expanded), k) == One(w.Of(root) == k)
  {
    match expanded
    case Nil => assert Occ(w, Snoc(Nil, root), k) == One(w.Of(root) == k);
    case Snoc(init, e) =>
      assert e in Bag(expanded) && forall x :: x in Bag(init) ==> x in Bag(expanded);
      EnteredNever(w, root, init, k);
      OccAppend(w, w.Met(root, init), w.Next(e), k);
  }

  // ---------------------------------------------------------------- finished raising rounds

  /** A finished raising round over a graph in which dentries of one inode lead to the same
      inodes. */
  ghost predicate Finished(r: Round, root: Path, expanded: List<Path>) {
    && r.mode == Raise && r.world.WellFormed() && AliasesAgree(r.world) && Starts(r)
    && root in r.world.ino && r.Tracks(root, [], expanded)
  }

  /** The expansions of an inode, from its encounters. */
  lemma KeyExpansions(r: Round, root: Path, expanded: List<Path>, k: Key)
    requires r.mode == Raise && Starts(r) && r.Tracks(root, [], expanded)
    ensures Occ(r.world, expanded, k) == Expanded(r, k, Occ(r.world, r.world.Met(root, expanded), k))
  {
    assert Bag(expanded) + multiset([]) == Bag(expanded);
    OccSame(r.world, expanded, r.Pushed(r.world.Met(root, expanded)), k);
    RaiseExpansions(r, r.world.Met(root, expanded), k);
  }

  /** A finished round has expanded exactly the reachable inodes. */
  lemma ReachedExpanded(r: Round, root: Path, expanded: List<Path>, k: Key)
    requires Finished(r, root, expanded)
    ensures Occ(r.world, r.world.Met(root, expanded), k) > 0 <==> Reaches(r.world, root, k)
    ensures Occ(r.world, expanded, k) > 0 <==> Reaches(r.world, root, k)
  {
    RaisingRound(r, root, expanded, k);
    KeyExpansions(r, root, expanded, k);
  }

  lemma ExpandedIn(r: Round, root: Path, expanded: List<Path>, e: Path)
    requires Finished(r, root, expanded) && e in Bag(expanded)
    ensures e in r.world.ino && Reaches(r.world, root, r.world.Of(e))
  {
    assert Bag(expanded) + multiset([]) == Bag(expanded);
    r.PushedWereMet(r.world.Met(root, expanded));
    r.MetIn(root, expanded, e);
    var walk := MetIsWalk(r.world, root, expanded, e);
  }

  lemma LeadsAll(w: World, e: Path, k: Key)
    requires AliasesAgree(w) && e in w.ino && Occ(w, w.Next(e), k) > 0
    ensures forall x :: x in w.ino && w.Of(x) == w.Of(e) ==> Occ(w, w.Next(x), k) > 0
  {
    OccIn(w, w.Next(e), k);
    assert LeadsTo(w, e, k) && AgreesAt(w, e);
    forall x | x in w.ino && w.Of(x) == w.Of(e) ensures Occ(w, w.Next(x), k) > 0 {
      assert LeadsTo(w, x, k);
      OccIn(w, w.Next(x), k);
    }
  }

  /** The last step of a walk. */
  lemma WalkStep(w: World, root: Path, walk: List<Path>)
    requires w.WellFormed() && root in w.ino && Walk(w, root, walk) && walk.init.Snoc?
    ensures walk.init.last in w.ino && Reaches(w, root, w.Of(walk.init.last))
    ensures Occ(w, w.Next(walk.init.last), w.Of(walk.last)) > 0
  {
    WalkIn(w, root, walk.init);
    OccIn(w, w.Next(walk.init.last), w.Of(walk.last));
  }

  // ---------------------------------------------------------------- counted once

  /** Dentries of one inode lead to the same inodes equally often: any two hard links of a file
      do, and any two of a symlink that resolve alike. */
  ghost predicate AliasesMatch(w: World) {
    forall d, e, k {:trigger Occ(w, w.Next(d), k), Occ(w, w.Next(e), k)} ::
      d in w.ino && e in w.ino && w.Of(d) == w.Of(e) ==> Occ(w, w.Next(d), k) == Occ(w, w.Next(e), k)
  }

  lemma UniqueMatch(w: World)
    requires NoHardLinks(w)
    ensures AliasesMatch(w)
  {
    forall d, e, k | d in w.ino && e in w.ino && w.Of(d) == w.Of(e) ensures Occ(w, w.Next(d), k) == Occ(w, w.Next(e), k) {
      assert Unique(w, d);
    }
  }

  lemma MatchAgrees(w: World)
    requires AliasesMatch(w)
    ensures AliasesAgree(w)
  {
    forall d, e, k | d in w.ino && e in w.ino && w.Of(e) == w.Of(d) && LeadsTo(w, d, k) ensures LeadsTo(w, e, k) {
      OccIn(w, w.Next(d), k);
      OccIn(w, w.Next(e), k);
    }
  }

  /** The inode `k` is entered from one place, once: it is that of the root and nothing reachable
      leads to it, or one reachable inode does. */
  ghost predicate SingleEntrance(w: World, root: Path, k: Key) {
    if w.Of(root) == k then NoEntrance(w, root, k) else exists j :: OnlyFrom(w, root, k, j)
  }

  ghost predicate NoEntrance(w: World, root: Path, k: Key) {
    forall e :: e in w.ino && Reaches(w, root, w.Of(e)) ==> Occ(w, w.Next(e), k) == 0
  }

  ghost predicate OnlyFrom(w: World, root: Path, k: Key, j: Key) {
    forall e :: e in w.ino && Reaches(w, root, w.Of(e)) ==> Occ(w, w.Next(e), k) == One(w.Of(e) == j)
  }

  /** `k` is reachable, and not known to the table when the round begins; a number of 2^32 or
      more never is. */
  ghost predicate NewTo(r: Round, root: Path, k: Key) {
    Reaches(r.world, root, k) && (k in r.before.entries ==> k.inode >= UINT_LIMIT)
  }

  ghost predicate SingleEntrances(r: Round, root: Path) {
    forall k :: NewTo(r, root, k) ==> SingleEntrance(r.world, root, k)
  }

  lemma RootMetOnce(r: Round, root: Path, expanded: List<Path>)
    requires Finished(r, root, expanded) && NoEntrance(r.world, root, r.world.Of(root))
    ensures Occ(r.world, r.world.Met(root, expanded), r.world.Of(root)) == 1
  {
    var w := r.world;
    forall e | e in Bag(expanded) ensures Occ(w, w.Next(e), w.Of(root)) == 0 {
      ExpandedIn(r, root, expanded, e);
    }
    EnteredNever(w, root, expanded, w.Of(root));
  }

  lemma OnlyEntrance(r: Round, root: Path, expanded: List<Path>, k: Key, u: Path)
    requires Finished(r, root, expanded) && SingleEntrance(r.world, root, k) && r.world.Of(root) != k
    requires u in r.world.ino && Reaches(r.world, root, r.world.Of(u)) && Occ(r.world, r.world.Next(u), k) > 0
    ensures Occ(r.world, r.world.Met(root, expanded), k) <= Occ(r.world, expanded, r.world.Of(u))
  {
    var w := r.world;
    var j :| OnlyFrom(w, root, k, j);
    forall e | e in Bag(expanded) ensures Occ(w, w.Next(e), k) <= One(w.Of(e) == j) {
      ExpandedIn(r, root, expanded, e);
    }
    EnteredOnly(w, root, expanded, j, k);
  }

  lemma {:induction false} SingleMetOnce(r: Round, root: Path, expanded: List<Path>, walk: List<Path>)
    requires Finished(r, root, expanded) && Walk(r.world, root, walk) && SingleEntrances(r, root)
    requires NewTo(r, root, r.world.Of(walk.last))
    ensures Occ(r.world, r.world.Met(root, expanded), r.world.Of(walk.last)) == 1
  {
    var w, k := r.world, r.world.Of(walk.last);
    ReachedExpanded(r, root, expanded, k);
    assert SingleEntrance(w, root, k);
    if k == w.Of(root) {
      RootMetOnce(r, root, expanded);
    } else {
      var u := walk.init.last;
      WalkStep(w, root, walk);
      OnlyEntrance(r, root, expanded, k, u);
      if NewTo(r, root, w.Of(u)) {
        SingleMetOnce(r, root, expanded, walk.init);
      }
      KeyExpansions(r, root, expanded, w.Of(u));
    }
  }

  /** An inode met once has no second entrance. */
  lemma NoOtherEntrance(r: Round, root: Path, expanded: List<Path>, k: Key, u: Path, e: Path)
    requires Finished(r, root, expanded) && Occ(r.world, r.world.Met(root, expanded), k) <= 1
    requires u in r.world.ino && Reaches(r.world, root, r.world.Of(u)) && Occ(r.world, r.world.Next(u), k) > 0
    requires e in r.world.ino && Reaches(r.world, root, r.world.Of(e)) && Occ(r.world, r.world.Next(e), k) > 0
    ensures r.world.Of(e) == r.world.Of(u) && r.world.Of(root) != k
  {
    var w := r.world;
    forall x | x in Bag(expanded) ensures x in w.ino {
      ExpandedIn(r, root, expanded, x);
    }
    LeadsAll(w, u, k);
    LeadsAll(w, e, k);
    ReachedExpanded(r, root, expanded, w.Of(u));
    ReachedExpanded(r, root, expanded, w.Of(e));
    Entered(w, root, expanded, w.Of(u), k);
    if w.Of(e) != w.Of(u) {
      EnteredTwice(w, root, expanded, w.Of(u), w.Of(e), k);
    }
  }

  /** Nor is it entered twice from the same place. */
  lemma NoDoubleEntrance(r: Round, root: Path, expanded: List<Path>, k: Key, e: Path)
    requires Finished(r, root, expanded) && AliasesMatch(r.world)
    requires Occ(r.world, r.world.Met(root, expanded), k) <= 1
    requires e in r.world.ino && Reaches(r.world, root, r.world.Of(e))
    ensures Occ(r.world, r.world.Next(e), k) <= 1
  {
    ReachedExpanded(r, root, expanded, r.world.Of(e));
    var x := ExpandedFor(r, root, expanded, r.world.Of(e));
    EnteredDouble(r.world, root, expanded, x, k);
  }

  lemma MetOnceSingle(r: Round, root: Path, expanded: List<Path>, k: Key)
    requires Finished(r, root, expanded) && AliasesMatch(r.world) && Reaches(r.world, root, k)
    requires Occ(r.world, r.world.Met(root, expanded), k) <= 1
    ensures SingleEntrance(r.world, root, k)
  {
    var w := r.world;
    if w.Of(root) == k {
      forall e | e in w.ino && Reaches(w, root, w.Of(e)) ensures Occ(w, w.Next(e), k) == 0 {
        if Occ(w, w.Next(e), k) > 0 {
          NoOtherEntrance(r, root, expanded, k, e, e);
        }
      }
    } else {
      var walk :| Walk(w, root, walk) && w.Of(walk.last) == k;
      var u := walk.init.last;
      WalkStep(w, root, walk);
      forall e | e in w.ino && Reaches(w, root, w.Of(e)) ensures Occ(w, w.Next(e), k) == One(w.Of(e) == w.Of(u)) {
        LeadsAll(w, u, k);
        NoDoubleEntrance(r, root, expanded, k, e);
        if Occ(w, w.Next(e), k) > 0 {
          NoOtherEntrance(r, root, expanded, k, u, e);
        }
      }
      assert OnlyFrom(w, root, k, w.Of(u));
    }
  }

  /** Every new inode is met once exactly when every new inode has a single entrance. */
  lemma MetOnceExactly(r: Round, root: Path, expanded: List<Path>)
    requires Finished(r, root, expanded) && AliasesMatch(r.world)
    ensures (forall k :: NewTo(r, root, k) ==> Occ(r.world, r.world.Met(root, expanded), k) == 1) <==>
            SingleEntrances(r, root)
  {
    if SingleEntrances(r, root) {
      forall k | NewTo(r, root, k) ensures Occ(r.world, r.world.Met(root, expanded), k) == 1 {
        var walk :| Walk(r.world, root, walk) && r.world.Of(walk.last) == k;
        SingleMetOnce(r, root, expanded, walk);
      }
    } else {
      var k :| NewTo(r, root, k) && !SingleEntrance(r.world, root, k);
      if Occ(r.world, r.world.Met(root, expanded), k) == 1 {
        MetOnceSingle(r, root, expanded, k);
      }
    }
  }

  ghost predicate GainsOne(r: Round, t: Table, k: Key) {
    k in t.entries && t.entries[k].refCount == r.junk(k) + 1
  }

  lemma NewCount(r: Round, root: Path, expanded: List<Path>, t: Table, k: Key)
    requires Finished(r, root, expanded) && NewTo(r, root, k) && k.inode < UINT_LIMIT
    requires t == r.After(r.world.Met(root, expanded))
    ensures k in t.entries
    ensures t.entries[k].refCount == r.junk(k) + if Occ(r.world, r.world.Met(root, expanded), k) == 1 then 1 else 2
  {
    ReachedExpanded(r, root, expanded, k);
    RaiseEntries(r, r.world.Met(root, expanded), k);
    assert EntryOf(t, k).Some?;
  }

  /** A new inode that two reachable inodes lead to is counted twice. */
  lemma CountedTwice(r: Round, root: Path, expanded: List<Path>, k: Key, u: Path, v: Path)
    requires Finished(r, root, expanded) && k !in r.before.entries && k.inode < UINT_LIMIT
    requires u in r.world.ino && Reaches(r.world, root, r.world.Of(u)) && Occ(r.world, r.world.Next(u), k) > 0
    requires v in r.world.ino && Reaches(r.world, root, r.world.Of(v)) && Occ(r.world, r.world.Next(v), k) > 0
    requires r.world.Of(u) != r.world.Of(v)
    ensures EntryOf(r.After(r.world.Met(root, expanded)), k) == Some(Entry(r.junk(k) + 2, r.nonce))
  {
    var met := r.world.Met(root, expanded);
    if Occ(r.world, met, k) <= 1 {
      NoOtherEntrance(r, root, expanded, k, u, v);
    }
    TwiceRaised(r, met, k);
  }

  lemma TwiceRaised(r: Round, met: List<Path>, k: Key)
    requires r.mode == Raise && Starts(r) && k !in r.before.entries && k.inode < UINT_LIMIT && Occ(r.world, met, k) >= 2
    ensures EntryOf(r.After(met), k) == Some(Entry(r.junk(k) + 2, r.nonce))
  {
    RaiseEntries(r, met, k);
  }

  /** Every reachable inode that is new to the table gains exactly 1 if and only if every new
      inode has a single entrance: a condition on the graph and the table before the round. */
  lemma CountedOnceExactly(r: Round, root: Path, expanded: List<Path>, t: Table)
    requires Finished(r, root, expanded) && AliasesMatch(r.world) && r.world.Narrow()
    requires t == r.After(r.world.Met(root, expanded))
    ensures (forall k :: NewTo(r, root, k) ==> GainsOne(r, t, k)) <==> SingleEntrances(r, root)
  {
    forall k | NewTo(r, root, k)
      ensures GainsOne(r, t, k) <==> Occ(r.world, r.world.Met(root, expanded), k) == 1
    {
      ReachedNarrow(r.world, root, k);
      NewCount(r, root, expanded, t, k);
    }
    MetOnceExactly(r, root, expanded);
  }

  lemma ReachedNarrow(w: World, root: Path, k: Key)
    requires w.WellFormed() && w.Narrow() && root in w.ino && Reaches(w, root, k)
    ensures k.inode < UINT_LIMIT
  {
    var walk :| Walk(w, root, walk) && w.Of(walk.last) == k;
    WalkIn(w, root, walk);
    assert walk.last in Bag(walk);
  }
}
