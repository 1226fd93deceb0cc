/** When an add round and then a remove round from the same root restore every count, over
    graphs with symlinks, cycles and hard-linked files. */
module RoundTrips {
  import opened Paths
  import opened Lists
  import opened InodeTable
  import opened Rounds
  import opened RoundFacts
  import opened Entrances
  import opened LowerFacts
  import opened Index

  /** Both rounds, one after the other, from a root that is no symlink. */
  ghost predicate ThereAndBack(up: Round, down: Round, root: Path, raised: List<Path>, lowered: List<Path>, t: Table) {
    && up.mode == Raise && down.mode == Lower && up.world == down.world
    && up.world.WellFormed() && up.world.Narrow() && DirsUnique(up.world) && root !in up.world.link
    && Starts(up) && Starts(down) && Done(up, root, raised, down.before) && Done(down, root, lowered, t)
  }

  /** Some dentry at or below `root` has inode `k`. */
  ghost predicate Below(w: World, root: Path, k: Key) {
    exists d :: d in w.ino && Above(root, d) && w.ino[d] == k
  }

  lemma CountIs(t: Table, k: Key)
    ensures CountOf(t, k) == match EntryOf(t, k) case None => 0 case Some(e) => e.refCount
  {
  }

  /** A lowering round encounters exactly the inodes at or below its root. */
  lemma LoweredBelow(r: Round, root: Path, lowered: List<Path>, t: Table, k: Key)
    requires r.mode == Lower && r.world.WellFormed() && DirsUnique(r.world) && root !in r.world.link
    requires Starts(r) && Done(r, root, lowered, t)
    ensures Occ(r.world, r.world.Met(root, lowered), k) > 0 <==> Below(r.world, root, k)
  {
    var w, met := r.world, r.world.Met(root, lowered);
    TrackedLinkless(r, root, [], lowered);
    OccIn(w, met, k);
    if Occ(w, met, k) > 0 {
      var d :| d in Bag(met) && w.Of(d) == k;
      r.MetIn(root, lowered, d);
      MetBelow(w, root, lowered, d);
    }
    if Below(w, root, k) {
      var d :| d in w.ino && Above(root, d) && w.ino[d] == k;
      TreeMet(r, root, lowered, d);
    }
  }

  /** It lowers each of them once, however many dentries it has. */
  lemma LoweredOnce(r: Round, root: Path, lowered: List<Path>, t: Table, k: Key)
    requires r.mode == Lower && r.world.WellFormed() && DirsUnique(r.world) && root !in r.world.link
    requires Starts(r) && Done(r, root, lowered, t)
    ensures CountOf(t, k) == CountOf(r.before, k) - One(Below(r.world, root, k) && CountOf(r.before, k) > 0)
  {
    LoweredBelow(r, root, lowered, t, k);
    LoweredEntries(r, r.world.Met(root, lowered), k);
    CountIs(t, k);
    CountIs(r.before, k);
  }

  /** A raising round raises by the encounters. */
  lemma RaisedBy(r: Round, met: List<Path>, t: Table, k: Key)
    requires r.mode == Raise && Starts(r) && t == r.After(met) && k.inode < UINT_LIMIT
    ensures var n := Occ(r.world, met, k);
            CountOf(t, k) ==
            if n == 0 then CountOf(r.before, k)
            else if k in r.before.entries then CountOf(r.before, k) + 1
            else r.junk(k) + if n == 1 then 1 else 2
  {
    RaiseEntries(r, met, k);
    CountIs(t, k);
    CountIs(r.before, k);
  }

  /** The inode `k` comes back to its count. */
  ghost predicate ComesBack(up: Round, root: Path, met: List<Path>, k: Key) {
    && Below(up.world, root, k)
    && (k !in up.before.entries ==> Occ(up.world, met, k) == 1 && up.junk(k) == 0)
  }

  lemma KeyRestored(up: Round, down: Round, root: Path, raised: List<Path>, lowered: List<Path>, t: Table, k: Key)
    requires ThereAndBack(up, down, root, raised, lowered, t)
    ensures var met := up.world.Met(root, raised);
            CountOf(t, k) == CountOf(up.before, k) <==> (Occ(up.world, met, k) > 0 ==> ComesBack(up, root, met, k))
  {
    var w, met := up.world, up.world.Met(root, raised);
    LoweredOnce(down, root, lowered, t, k);
    OccIn(w, met, k);
    if Below(w, root, k) {
      var d :| d in w.ino && Above(root, d) && w.ino[d] == k;
      BelowMet(up, root, raised, d);
    }
    if Occ(w, met, k) > 0 {
      var d :| d in Bag(met) && w.Of(d) == k;
      up.MetIn(root, raised, d);
      RaisedBy(up, met, down.before, k);
    } else {
      Untouched(up, met, k);
      CountIs(down.before, k);
      CountIs(up.before, k);
    }
  }

  /** Every count is restored if and only if every inode the add met lies at or below the root,
      and each that was new was met once and started from zeroed memory. */
  lemma RestoredExactly(up: Round, down: Round, root: Path, raised: List<Path>, lowered: List<Path>, t: Table)
    requires ThereAndBack(up, down, root, raised, lowered, t)
    ensures var met := up.world.Met(root, raised);
            (forall k :: CountOf(t, k) == CountOf(up.before, k)) <==>
            (forall k :: Occ(up.world, met, k) > 0 ==> ComesBack(up, root, met, k))
  {
    var met := up.world.Met(root, raised);
    if forall k :: Occ(up.world, met, k) > 0 ==> ComesBack(up, root, met, k) {
      forall k ensures CountOf(t, k) == CountOf(up.before, k) {
        KeyRestored(up, down, root, raised, lowered, t, k);
      }
    } else {
      var k :| Occ(up.world, met, k) > 0 && !ComesBack(up, root, met, k);
      KeyRestored(up, down, root, raised, lowered, t, k);
    }
  }

  // ---------------------------------------------------------------- from the graph alone

  /** What lies within reach of the root lies below it, and what is new there has a single
      entrance and zeroed memory. */
  ghost predicate Contained(r: Round, root: Path) {
    forall k :: Reaches(r.world, root, k) ==>
      && Below(r.world, root, k)
      && (k !in r.before.entries ==> SingleEntrance(r.world, root, k) && r.junk(k) == 0)
  }

  /** The same condition before the rounds begin: on the graph, the table and the memory. */
  lemma RoundTripExactly(up: Round, down: Round, root: Path, raised: List<Path>, lowered: List<Path>, t: Table)
    requires ThereAndBack(up, down, root, raised, lowered, t) && AliasesMatch(up.world)
    ensures (forall k :: CountOf(t, k) == CountOf(up.before, k)) <==> Contained(up, root)
  {
    MatchAgrees(up.world);
    RestoredExactly(up, down, root, raised, lowered, t);
    forall k ensures Occ(up.world, up.world.Met(root, raised), k) > 0 <==> Reaches(up.world, root, k) {
      ReachedExpanded(up, root, raised, k);
    }
    if Contained(up, root) {
      SinglesMetOnce(up, root, raised);
    } else {
      SinglesOnly(up, root, raised);
    }
  }

  lemma SinglesMetOnce(up: Round, root: Path, raised: List<Path>)
    requires Finished(up, root, raised) && AliasesMatch(up.world) && up.world.Narrow() && Contained(up, root)
    ensures forall k :: Reaches(up.world, root, k) ==> ComesBack(up, root, up.world.Met(root, raised), k)
  {
    forall k | NewTo(up, root, k) ensures SingleEntrance(up.world, root, k) {
      ReachedNarrow(up.world, root, k);
    }
    MetOnceExactly(up, root, raised);
    forall k | Reaches(up.world, root, k) ensures ComesBack(up, root, up.world.Met(root, raised), k) {
      assert k !in up.before.entries ==> NewTo(up, root, k);
    }
  }

  lemma SinglesOnly(up: Round, root: Path, raised: List<Path>)
    requires Finished(up, root, raised) && AliasesMatch(up.world)
    ensures (forall k :: Reaches(up.world, root, k) ==> ComesBack(up, root, up.world.Met(root, raised), k)) ==>
            Contained(up, root)
  {
    forall k | Reaches(up.world, root, k) && Occ(up.world, up.world.Met(root, raised), k) == 1
      ensures SingleEntrance(up.world, root, k)
    {
      MetOnceSingle(up, root, raised, k);
    }
  }

  // ---------------------------------------------------------------- hard-linked files

  /** On a graph without symlinks the raising round meets what lies below its root, each dentry
      once; so a new inode is met once exactly if no two dentries there share it. */
  lemma TreeMetOnce(up: Round, root: Path, raised: List<Path>, d: Path)
    requires up.mode == Raise && up.world.WellFormed() && DirsUnique(up.world) && up.world.link == map[]
    requires Starts(up) && root in up.world.ino && up.Tracks(root, [], raised) && d in up.world.ino && Above(root, d)
    ensures Occ(up.world, up.world.Met(root, raised), up.world.ino[d]) == 1 <==> !Shared(up.world, root, d)
  {
    var w, met := up.world, up.world.Met(root, raised);
    if Shared(w, root, d) {
      SharedMet(up, root, raised, d);
    } else {
      TreeMet(up, root, raised, d);
      forall e | e in Bag(met) && w.Of(e) == w.Of(d) ensures e == d {
        up.MetIn(root, raised, e);
        MetBelow(w, root, raised, e);
      }
      OccOnly(w, met, d);
    }
  }

  /** Without symlinks and from zeroed memory, an add round and then a remove round restore every
      count exactly when the inodes that two dentries below the root share were counted before. */
  lemma RoundTripOfFiles(up: Round, down: Round, root: Path, raised: List<Path>, lowered: List<Path>, t: Table)
    requires ThereAndBack(up, down, root, raised, lowered, t) && up.world.link == map[]
    requires forall k :: up.junk(k) == 0
    ensures (forall k :: CountOf(t, k) == CountOf(up.before, k)) <==>
            (forall d :: d in up.world.ino && Above(root, d) && Shared(up.world, root, d) ==>
               up.world.ino[d] in up.before.entries)
  {
    var w, met := up.world, up.world.Met(root, raised);
    RestoredExactly(up, down, root, raised, lowered, t);
    forall d | d in w.ino && Above(root, d)
      ensures Occ(w, met, w.ino[d]) > 0
      ensures ComesBack(up, root, met, w.ino[d]) <==> !Shared(w, root, d) || w.ino[d] in up.before.entries
    {
      FileComesBack(up, root, raised, d);
    }
    forall k | Occ(w, met, k) > 0 ensures Below(w, root, k) {
      MetIsBelow(up, root, raised, k);
    }
  }

  lemma FileComesBack(up: Round, root: Path, raised: List<Path>, d: Path)
    requires up.mode == Raise && up.world.WellFormed() && DirsUnique(up.world) && up.world.link == map[]
    requires Starts(up) && root in up.world.ino && up.Tracks(root, [], raised) && d in up.world.ino && Above(root, d)
    requires forall k :: up.junk(k) == 0
    ensures Occ(up.world, up.world.Met(root, raised), up.world.ino[d]) > 0
    ensures ComesBack(up, root, up.world.Met(root, raised), up.world.ino[d]) <==>
            !Shared(up.world, root, d) || up.world.ino[d] in up.before.entries
  {
    TreeMetOnce(up, root, raised, d);
    BelowMet(up, root, raised, d);
    OccIn(up.world, up.world.Met(root, raised), up.world.ino[d]);
  }

  lemma MetIsBelow(up: Round, root: Path, raised: List<Path>, k: Key)
    requires up.world.WellFormed() && up.world.link == map[] && root in up.world.ino && up.world.Ordered(root, raised)
    requires Occ(up.world, up.world.Met(root, raised), k) > 0
    ensures Below(up.world, root, k)
  {
    var met := up.world.Met(root, raised);
    OccIn(up.world, met, k);
    var d :| d in Bag(met) && up.world.Of(d) == k;
    up.MetIn(root, raised, d);
    MetBelow(up.world, root, raised, d);
  }
}
