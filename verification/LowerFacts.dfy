/** What a lowering round does to the table, and when it runs into the removal that never
    returns. */
module LowerFacts {
  import opened Paths
  import opened Lists
  import opened InodeTable
  import opened Rounds
  import opened RoundFacts
  import opened Wrappers

  /** Every removal of the round so far came back. */
  ghost predicate NoMiss(r: Round, met: List<Path>) {
    match met
    case Nil => true
    case Snoc(init, d) => NoMiss(r, init) && r.Visit(r.After(init), d).1 != Stuck
  }

  lemma {:induction false} SameDevices(r: Round, met: List<Path>)
    requires r.mode == Lower
    ensures r.After(met).devices == r.before.devices
  {
    if met.Snoc? {
      SameDevices(r, met.init);
    }
  }

  /** The entry of `k` after `n` encounters that came back. */
  function Lowered(r: Round, k: Key, n: nat): Option<Entry> {
    if n == 0 || k !in r.before.entries then EntryOf(r.before, k)
    else if r.before.entries[k].refCount == 1 then None
    else Some(Entry(r.before.entries[k].refCount - 1, r.nonce))
  }

  /** A removal that does not come back would change nothing. */
  lemma {:induction false} LoweredEntries(r: Round, met: List<Path>, k: Key)
    requires r.mode == Lower && Starts(r)
    ensures EntryOf(r.After(met), k) == Lowered(r, k, Occ(r.world, met, k))
  {
    if met.Snoc? {
      LoweredEntries(r, met.init, k);
      assert k in r.After(met.init).entries <==> EntryOf(r.After(met.init), k).Some?;
    }
  }

  /** Of an inode that is not counted no removal comes back, and of one that is counted once
      a single removal does, if its device has a table. */
  lemma {:induction false} LowerEntries(r: Round, met: List<Path>, k: Key)
    requires r.mode == Lower && Starts(r) && NoMiss(r, met) && k.device in r.before.devices
    ensures k !in r.before.entries ==> Occ(r.world, met, k) == 0
    ensures k in r.before.entries && r.before.entries[k].refCount == 1 ==> Occ(r.world, met, k) <= 1
  {
    if met.Snoc? {
      LowerEntries(r, met.init, k);
      LoweredEntries(r, met.init, k);
      SameDevices(r, met.init);
      assert k in r.After(met.init).entries <==> EntryOf(r.After(met.init), k).Some?;
    }
  }

  /** The removal of `d` from `t` finds its device but not its inode: the inode is not counted,
      or it is counted once and another dentry below `root` shares it. */
  ghost predicate MissAt(w: World, root: Path, t: Table, d: Path) {
    && d in w.ino && Above(root, d) && w.ino[d].device in t.devices
    && (w.ino[d] in t.entries ==> t.entries[w.ino[d]].refCount == 1 && Shared(w, root, d))
  }

  ghost predicate Shared(w: World, root: Path, d: Path) {
    d in w.ino && exists e :: e in w.ino && Above(root, e) && e != d && w.ino[e] == w.ino[d]
  }

  ghost predicate Misses(w: World, root: Path, t: Table) {
    exists d :: MissAt(w, root, t, d)
  }

  lemma {:induction false} OccBoth(w: World, met: List<Path>, d: Path, e: Path)
    requires d != e && w.Of(d) == w.Of(e)
    ensures Bag(met)[d] + Bag(met)[e] <= Occ(w, met, w.Of(d))
  {
    if met.Snoc? {
      OccBoth(w, met.init, d, e);
    }
  }

  /** A round that came back everywhere had nothing to miss. */
  lemma DoneMissesNothing(r: Round, root: Path, expanded: List<Path>)
    requires r.mode == Lower && r.world.WellFormed() && DirsUnique(r.world) && Starts(r) && root in r.world.ino
    requires r.Tracks(root, [], expanded) && Linkless(r.world, expanded) && NoMiss(r, r.world.Met(root, expanded))
    ensures !Misses(r.world, root, r.before)
  {
    var w, met := r.world, r.world.Met(root, expanded);
    forall d ensures !MissAt(w, root, r.before, d) {
      if MissAt(w, root, r.before, d) {
        var k := w.ino[d];
        TreeMet(r, root, expanded, d);
        OccIn(w, met, k);
        LowerEntries(r, met, k);
        if k in r.before.entries {
          var e :| e in w.ino && Above(root, e) && e != d && w.ino[e] == k;
          TreeMet(r, root, expanded, e);
          OccBoth(w, met, d, e);
        }
      }
    }
  }

  /** A removal misses only for one of those reasons. */
  lemma MissReason(r: Round, root: Path, met: List<Path>, d: Path)
    requires r.mode == Lower && Starts(r) && NoMiss(r, met) && r.Visit(r.After(met), d).1 == Stuck
    requires d in r.world.ino && Above(root, d) && d !in Bag(met)
    requires forall e :: e in Bag(met) ==> e in r.world.ino && Above(root, e)
    ensures MissAt(r.world, root, r.before, d)
  {
    var k := r.world.ino[d];
    LoweredEntries(r, met, k);
    SameDevices(r, met);
    assert k in r.After(met).entries <==> EntryOf(r.After(met), k).Some?;
    OccIn(r.world, met, k);
    if k in r.before.entries {
      var e :| e in Bag(met) && r.world.Of(e) == k;
      assert Shared(r.world, root, d);
    }
  }
}
