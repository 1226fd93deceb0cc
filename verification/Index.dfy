/** The index agreement: over whole runs of adds and removes on a fixed tree, the count of an
    inode is the number of explicit paths at or above it, so a table lookup answers whether
    some explicit path covers the inode. */
module Index {
  import opened Paths
  import opened Lists
  import opened InodeTable
  import opened Rounds
  import opened RoundFacts
  import opened LowerFacts
  import opened Wrappers
  import T = Trie

  const ULLONG_MAX: nat := 0xFFFF_FFFF_FFFF_FFFF

  // ---------------------------------------------------------------- rounds keep the stamps in order

  lemma {:induction false} SoundAfter(r: Round, met: List<Path>)
    requires Sound(r.before, r.nonce)
    ensures Sound(r.After(met), r.nonce)
  {
    if met.Snoc? {
      SoundAfter(r, met.init);
    }
  }

  lemma SoundStarts(r: Round)
    requires r.nonce > 0 && Sound(r.before, r.nonce - 1)
    ensures Starts(r) && Sound(r.before, r.nonce)
  {
    forall k | k in r.before.entries ensures r.before.entries[k].stamp < r.nonce && k.device in r.before.devices {
      assert r.before.entries[k].stamp <= r.nonce - 1;
    }
  }

  // ---------------------------------------------------------------- agreement on a tree

  /** A dentry tree without symlinks and hard links, its inode numbers below 2^32. */
  ghost predicate Tree(w: World) {
    w.WellFormed() && w.Narrow() && w.link == map[] && NoHardLinks(w)
  }

  /** The explicit paths at or above `d`. */
  ghost function Covers(explicit: set<Path>, d: Path): set<Path> {
    set e | e in explicit && Above(e, d)
  }

  ghost function CountOf(t: Table, k: Key): nat {
    if k in t.entries then t.entries[k].refCount else 0
  }

  ghost predicate Agrees(w: World, explicit: set<Path>, t: Table) {
    && (forall d :: d in w.ino ==> CountOf(t, w.ino[d]) == |Covers(explicit, d)|)
    && (forall k :: k in t.entries ==> k in w.ino.Values)
  }

  /** Under agreement check_inode is true exactly for the inodes some explicit path covers. */
  lemma AgreementAnswers(w: World, explicit: set<Path>, t: Table, d: Path)
    requires Agrees(w, explicit, t) && d in w.ino
    ensures w.ino[d] in t.entries <==> exists e :: e in explicit && Above(e, d)
  {
    if w.ino[d] in t.entries {
      assert |Covers(explicit, d)| > 0;
      var e :| e in Covers(explicit, d);
    }
    if e :| e in explicit && Above(e, d) {
      assert e in Covers(explicit, d);
    }
  }

  lemma CoversAdd(explicit: set<Path>, p: Path, d: Path)
    ensures |Covers(explicit + {p}, d)| == |Covers(explicit, d)| + if Above(p, d) && p !in explicit then 1 else 0
  {
    if Above(p, d) && p !in explicit {
      assert Covers(explicit + {p}, d) == Covers(explicit, d) + {p};
    } else {
      assert Covers(explicit + {p}, d) == Covers(explicit, d);
    }
  }

  lemma CoversRemove(explicit: set<Path>, p: Path, d: Path)
    requires p in explicit
    ensures |Covers(explicit - {p}, d)| == |Covers(explicit, d)| - if Above(p, d) then 1 else 0
  {
    assert explicit - {p} + {p} == explicit;
    CoversAdd(explicit - {p}, p, d);
  }

  /** A round of store_iterate_add or store_iterate_rm from `root` that expanded `expanded`
      and ended in table `t`.  A lowering round ends properly only from a root that is no
      resolvable symlink. */
  ghost predicate Done(r: Round, root: Path, expanded: List<Path>, t: Table) {
    && root in r.world.ino && (r.mode == Lower && root in r.world.link ==> r.world.link[root] == None)
    && r.Tracks(root, [], expanded) && t == r.After(r.world.Met(root, expanded))
  }

  ghost predicate Ends(r: Round, root: Path, t: Table) {
    exists expanded :: Done(r, root, expanded, t)
  }

  /** The entries after a round over a tree. */
  lemma TreeDone(r: Round, root: Path, expanded: List<Path>, t: Table, k: Key)
    requires Tree(r.world) && Starts(r) && Done(r, root, expanded, t)
    ensures k !in r.world.ino.Values ==> EntryOf(t, k) == EntryOf(r.before, k)
    ensures forall d :: d in r.world.ino && r.world.ino[d] == k ==>
              EntryOf(t, k) == if Above(root, d) then Visited(r, k) else EntryOf(r.before, k)
  {
    TreeRound(r, root, expanded, k);
  }

  /** What a round over a tree adds to the count of `d`. */
  ghost function Change(r: Round, root: Path, d: Path): int
    requires d in r.world.ino
  {
    if !Above(root, d) then 0
    else if r.mode == Raise then (if r.world.ino[d] in r.before.entries then 1 else r.junk(r.world.ino[d]) + 1)
    else (if r.world.ino[d] in r.before.entries then -1 else 0)
  }

  /** One visit in a round changes the count by one, or makes a fresh node. */
  lemma VisitedCount(r: Round, root: Path, t: Table, d: Path)
    requires Starts(r) && d in r.world.ino && r.world.ino[d].inode < UINT_LIMIT
    requires EntryOf(t, r.world.ino[d]) == if Above(root, d) then Visited(r, r.world.ino[d]) else EntryOf(r.before, r.world.ino[d])
    ensures CountOf(t, r.world.ino[d]) == CountOf(r.before, r.world.ino[d]) + Change(r, root, d)
  {
  }

  lemma RoundCount(r: Round, root: Path, expanded: List<Path>, t: Table, d: Path)
    requires Tree(r.world) && Starts(r) && Done(r, root, expanded, t) && d in r.world.ino
    ensures CountOf(t, r.world.ino[d]) == CountOf(r.before, r.world.ino[d]) + Change(r, root, d)
  {
    TreeDone(r, root, expanded, t, r.world.ino[d]);
    VisitedCount(r, root, t, d);
  }

  lemma RoundMembers(r: Round, root: Path, expanded: List<Path>, t: Table, k: Key)
    requires Tree(r.world) && Starts(r) && Done(r, root, expanded, t) && k !in r.world.ino.Values
    ensures CountOf(t, k) == CountOf(r.before, k)
  {
    TreeDone(r, root, expanded, t, k);
  }

  /** Memory that a raising round takes fresh nodes from reads as zero. */
  ghost predicate CleanBelow(r: Round, root: Path) {
    forall d {:trigger r.world.ino[d]} ::
      d in r.world.ino && Above(root, d) && r.world.ino[d] !in r.before.entries ==> r.junk(r.world.ino[d]) == 0
  }

  lemma StillMembers(r: Round, root: Path, expanded: List<Path>, t: Table, explicit: set<Path>)
    requires Tree(r.world) && Starts(r) && Done(r, root, expanded, t) && Agrees(r.world, explicit, r.before)
    ensures forall k :: k in t.entries ==> k in r.world.ino.Values
  {
    forall k | k in t.entries ensures k in r.world.ino.Values {
      if k !in r.world.ino.Values {
        RoundMembers(r, root, expanded, t, k);
      }
    }
  }

  /** Adding an explicit path again counts it once more than it covers. */
  lemma AddedTwice(r: Round, root: Path, expanded: List<Path>, t: Table, explicit: set<Path>)
    requires r.mode == Raise && Tree(r.world) && Starts(r) && Done(r, root, expanded, t)
    requires Agrees(r.world, explicit, r.before) && root in explicit
    ensures CountOf(t, r.world.ino[root]) == |Covers(explicit + {root}, root)| + 1
  {
    RoundCount(r, root, expanded, t, root);
    CoversAdd(explicit, root, root);
    AgreementAnswers(r.world, explicit, r.before, root);
  }

  /** Adding a path that is not explicit counts right, but for what a fresh node's memory held. */
  lemma AddedCount(r: Round, root: Path, expanded: List<Path>, t: Table, explicit: set<Path>, d: Path)
    requires r.mode == Raise && Tree(r.world) && Starts(r) && Done(r, root, expanded, t)
    requires Agrees(r.world, explicit, r.before) && root !in explicit && d in r.world.ino
    ensures CountOf(t, r.world.ino[d]) == |Covers(explicit + {root}, d)|
              + if Above(root, d) && r.world.ino[d] !in r.before.entries then r.junk(r.world.ino[d]) else 0
  {
    RoundCount(r, root, expanded, t, d);
    CoversAdd(explicit, root, d);
  }

  /** Adding keeps the agreement exactly when the path was not explicit already and the fresh
      nodes start from zeroed memory. */
  lemma AddAgreesExactly(r: Round, root: Path, expanded: List<Path>, t: Table, explicit: set<Path>)
    requires r.mode == Raise && Tree(r.world) && Starts(r) && Done(r, root, expanded, t)
    requires Agrees(r.world, explicit, r.before)
    ensures Agrees(r.world, explicit + {root}, t) <==> root !in explicit && CleanBelow(r, root)
  {
    var w := r.world;
    StillMembers(r, root, expanded, t, explicit);
    if root in explicit {
      AddedTwice(r, root, expanded, t, explicit);
      assert !Agrees(w, explicit + {root}, t);
    } else if CleanBelow(r, root) {
      forall d | d in w.ino ensures CountOf(t, w.ino[d]) == |Covers(explicit + {root}, d)| {
        AddedCount(r, root, expanded, t, explicit, d);
      }
      assert Agrees(w, explicit + {root}, t);
    } else {
      var d :| d in w.ino && Above(root, d) && w.ino[d] !in r.before.entries && r.junk(w.ino[d]) != 0;
      AddedCount(r, root, expanded, t, explicit, d);
      assert !Agrees(w, explicit + {root}, t);
    }
  }

  /** Removing an explicit path keeps the agreement. */
  lemma RemoveAgrees(r: Round, root: Path, expanded: List<Path>, t: Table, explicit: set<Path>)
    requires r.mode == Lower && Tree(r.world) && Starts(r) && Done(r, root, expanded, t)
    requires Agrees(r.world, explicit, r.before) && root in explicit
    ensures Agrees(r.world, explicit - {root}, t)
  {
    var w := r.world;
    StillMembers(r, root, expanded, t, explicit);
    forall d | d in w.ino ensures CountOf(t, w.ino[d]) == |Covers(explicit - {root}, d)| {
      RoundCount(r, root, expanded, t, d);
      CoversRemove(explicit, root, d);
      assert Above(root, d) ==> root in Covers(explicit, d);
    }
  }

  /** An explicit path is counted all the way down, so its removal misses no node. */
  lemma CountedBelow(w: World, explicit: set<Path>, t: Table, root: Path, d: Path)
    requires Agrees(w, explicit, t) && root in explicit && d in w.ino && Above(root, d)
    ensures w.ino[d] in t.entries
  {
    AgreementAnswers(w, explicit, t, d);
  }

  /** The two changes of a raising and a lowering round, one after the other. */
  lemma UpAndDown(up: Round, down: Round, root: Path, d: Path)
    requires up.mode == Raise && down.mode == Lower && up.world == down.world && d in up.world.ino
    requires CountOf(down.before, up.world.ino[d]) == CountOf(up.before, up.world.ino[d]) + Change(up, root, d)
    ensures Change(up, root, d) + Change(down, root, d) ==
              if Above(root, d) && up.world.ino[d] !in up.before.entries then up.junk(up.world.ino[d]) else 0
  {
  }

  lemma RoundTripCount(up: Round, down: Round, root: Path, raised: List<Path>, lowered: List<Path>, t: Table, d: Path)
    requires up.mode == Raise && down.mode == Lower && up.world == down.world && Tree(up.world)
    requires Starts(up) && Starts(down) && Done(up, root, raised, down.before) && Done(down, root, lowered, t) && d in up.world.ino
    ensures CountOf(t, up.world.ino[d]) == CountOf(up.before, up.world.ino[d]) +
              if Above(root, d) && up.world.ino[d] !in up.before.entries then up.junk(up.world.ino[d]) else 0
  {
    RoundCount(up, root, raised, down.before, d);
    RoundCount(down, root, lowered, t, d);
    UpAndDown(up, down, root, d);
  }

  /** One raising round and then one lowering round from the same root restore every count
      and every answer, whatever other rounds the table already records, exactly when the
      fresh nodes start from zeroed memory. */
  lemma RaiseThenLower(up: Round, down: Round, root: Path, raised: List<Path>, lowered: List<Path>, t: Table)
    requires up.mode == Raise && down.mode == Lower && up.world == down.world && Tree(up.world)
    requires Starts(up) && Starts(down) && Done(up, root, raised, down.before) && Done(down, root, lowered, t)
    ensures (forall k :: CountOf(t, k) == CountOf(up.before, k)) <==> CleanBelow(up, root)
    ensures (forall k :: k in t.entries <==> k in up.before.entries) <==> CleanBelow(up, root)
  {
    var w := up.world;
    if CleanBelow(up, root) {
      forall k ensures CountOf(t, k) == CountOf(up.before, k) {
        if k in w.ino.Values {
          var d :| d in w.ino && w.ino[d] == k;
          RoundTripCount(up, down, root, raised, lowered, t, d);
        } else {
          RoundMembers(up, root, raised, down.before, k);
          RoundMembers(down, root, lowered, t, k);
        }
      }
      forall k ensures k in t.entries <==> k in up.before.entries {
        assert CountOf(t, k) == CountOf(up.before, k);
      }
    } else {
      var d :| d in w.ino && Above(root, d) && w.ino[d] !in up.before.entries && up.junk(w.ino[d]) != 0;
      RoundTripCount(up, down, root, raised, lowered, t, d);
    }
  }

  /** After a raising round there is nothing to miss below its root, whatever symlinks and
      hard-linked files are there, so the lowering round completes. */
  lemma RaisedMissesNothing(r: Round, root: Path, expanded: List<Path>, t: Table)
    requires r.mode == Raise && Starts(r) && Done(r, root, expanded, t)
    requires r.world.WellFormed() && r.world.Narrow() && DirsUnique(r.world)
    ensures !Misses(r.world, root, t)
  {
    forall d | d in r.world.ino && Above(root, d)
      ensures r.world.ino[d] in t.entries && (t.entries[r.world.ino[d]].refCount == 1 ==> !Shared(r.world, root, d))
    {
      RaisedBelow(r, root, expanded, t, d);
    }
  }

  lemma RaisedBelow(r: Round, root: Path, expanded: List<Path>, t: Table, d: Path)
    requires r.mode == Raise && Starts(r) && Done(r, root, expanded, t)
    requires r.world.WellFormed() && r.world.Narrow() && DirsUnique(r.world)
    requires d in r.world.ino && Above(root, d)
    ensures r.world.ino[d] in t.entries && (t.entries[r.world.ino[d]].refCount == 1 ==> !Shared(r.world, root, d))
  {
    var met, k := r.world.Met(root, expanded), r.world.ino[d];
    BelowMet(r, root, expanded, d);
    OccIn(r.world, met, k);
    RaiseEntries(r, met, k);
    assert EntryOf(t, k).Some?;
    if Shared(r.world, root, d) {
      SharedMet(r, root, expanded, d);
    }
  }

  /** A shared inode is met twice at least. */
  lemma SharedMet(r: Round, root: Path, expanded: List<Path>, d: Path)
    requires r.mode == Raise && Starts(r) && r.Tracks(root, [], expanded) && root in r.world.ino
    requires r.world.WellFormed() && DirsUnique(r.world) && Above(root, d) && Shared(r.world, root, d)
    ensures Occ(r.world, r.world.Met(root, expanded), r.world.ino[d]) >= 2
  {
    var e :| e in r.world.ino && Above(root, e) && e != d && r.world.ino[e] == r.world.ino[d];
    BelowMet(r, root, expanded, d);
    BelowMet(r, root, expanded, e);
    OccBoth(r.world, r.world.Met(root, expanded), d, e);
  }

  // ---------------------------------------------------------------- whole runs

  datatype State = State(trie: T.Trie, table: Table, nonce: nat)

  const INITIAL := State(T.EMPTY, EMPTY_TABLE, 0)

  /** Adds and removes name a canonical path; it is resolved exactly when it is in the world. */
  datatype Op = AddPath(path: Path) | RmPath(path: Path) | RefreshStamps

  ghost predicate Step(w: World, junk: Key -> nat, s: State, op: Op, s': State)
    requires T.WellFormed(s.trie)
  {
    match op
    case AddPath(p) =>
      && s.nonce < ULLONG_MAX
      && s'.trie == T.Add(s.trie, p).0
      && if p in w.ino then s'.nonce == s.nonce + 1 && Ends(Round(Raise, w, s.table, s'.nonce, junk), p, s'.table)
         else s'.nonce == s.nonce && s'.table == s.table
    case RmPath(p) =>
      && s.nonce < ULLONG_MAX
      && s'.trie == T.Remove(s.trie, p).0
      && if p in w.ino && p in s.trie.explicit
         then s'.nonce == s.nonce + 1 && Ends(Round(Lower, w, s.table, s'.nonce, junk), p, s'.table)
         else s'.nonce == s.nonce && s'.table == s.table
    case RefreshStamps =>
      s' == State(s.trie, Refresh(s.table), 0)
  }

  /** One operation of a run: the dentry graph and the contents of fresh memory it finds, and
      the state it leaves. */
  datatype Event = Event(world: World, junk: Key -> nat, op: Op, after: State)

  type Trace = List<Event>

  function Last(trace: Trace): State {
    if trace.Nil? then INITIAL else trace.last.after
  }

  ghost predicate Run(trace: Trace) {
    match trace
    case Nil => true
    case Snoc(init, e) =>
      && Run(init)
      && T.WellFormed(Last(init).trie)
      && Step(e.world, e.junk, Last(init), e.op, e.after)
  }

  /** No resolved add of a path that is explicit already. */
  ghost predicate NeverReAdds(trace: Trace) {
    match trace
    case Nil => true
    case Snoc(init, e) => NeverReAdds(init) && (e.op.AddPath? && e.op.path in e.world.ino ==> e.op.path !in Last(init).trie.explicit)
  }

  /** No add of a path with an empty token. */
  ghost predicate AlwaysNamed(trace: Trace) {
    match trace
    case Nil => true
    case Snoc(init, e) => AlwaysNamed(init) && (e.op.AddPath? ==> Named(e.op.path))
  }

  /** The graph stays, and fresh memory reads as zero. */
  ghost predicate Steady(w: World, trace: Trace) {
    match trace
    case Nil => true
    case Snoc(init, e) => Steady(w, init) && e.world == w && forall k :: e.junk(k) == 0
  }

  /** Stamp discipline, for every run, re-adds and graphs that change between the operations
      included: no stamp is ahead of the nonce. */
  lemma {:induction false} StampDiscipline(trace: Trace)
    requires Run(trace)
    ensures Sound(Last(trace).table, Last(trace).nonce)
  {
    if trace.Snoc? {
      StampDiscipline(trace.init);
      var s, e := Last(trace.init), trace.last;
      if e.op.AddPath? && e.op.path in e.world.ino {
        var r := Round(Raise, e.world, s.table, e.after.nonce, e.junk);
        var expanded :| Done(r, e.op.path, expanded, e.after.table);
        DoneSound(r, e.op.path, expanded, e.after.table);
      } else if e.op.RmPath? && e.op.path in e.world.ino && e.op.path in s.trie.explicit {
        var r := Round(Lower, e.world, s.table, e.after.nonce, e.junk);
        var expanded :| Done(r, e.op.path, expanded, e.after.table);
        DoneSound(r, e.op.path, expanded, e.after.table);
      }
    }
  }

  /** So at the next round, over whatever graph, every stamp lies before its nonce. */
  lemma NextRoundStarts(trace: Trace, mode: Mode, w: World, junk: Key -> nat)
    requires Run(trace)
    ensures Starts(Round(mode, w, Last(trace).table, Last(trace).nonce + 1, junk))
  {
    StampDiscipline(trace);
    SoundStarts(Round(mode, w, Last(trace).table, Last(trace).nonce + 1, junk));
  }

  lemma DoneSound(r: Round, root: Path, expanded: List<Path>, t: Table)
    requires Done(r, root, expanded, t) && r.nonce > 0 && Sound(r.before, r.nonce - 1)
    ensures Sound(t, r.nonce)
  {
    SoundStarts(r);
    SoundAfter(r, r.world.Met(root, expanded));
  }

  /** Canonical trie form over runs that add no empty token. */
  lemma {:induction false} RunCanonical(trace: Trace)
    requires Run(trace) && AlwaysNamed(trace)
    ensures T.WellFormed(Last(trace).trie) && T.Canonical(Last(trace).trie)
    ensures forall p :: p in Last(trace).trie.kids <==> p.Root? || T.Leads(Last(trace).trie.explicit, p)
  {
    if trace.Snoc? {
      RunCanonical(trace.init);
      var s, op := Last(trace.init), trace.last.op;
      if op.AddPath? {
        T.AddRefines(s.trie, op.path);
      } else if op.RmPath? {
        T.RemoveRefines(s.trie, op.path);
      }
    }
    T.CanonicalForm(Last(trace).trie);
  }

  /** Index agreement over whole runs on a fixed tree: with zeroed memory and no re-added
      resolved path, the count of every inode is the number of explicit paths at or above it, and a
      lookup answers whether there is one. */
  lemma {:induction false} RunAgrees(w: World, trace: Trace)
    requires Tree(w) && Steady(w, trace) && Run(trace) && NeverReAdds(trace)
    ensures Agrees(w, Last(trace).trie.explicit, Last(trace).table)
    ensures forall d :: d in w.ino ==>
              (w.ino[d] in Last(trace).table.entries <==>
               exists e :: e in Last(trace).trie.explicit && Above(e, d))
  {
    var t := Last(trace);
    if trace.Snoc? {
      RunAgrees(w, trace.init);
      AgreesStep(w, trace);
    }
    forall d | d in w.ino
      ensures w.ino[d] in t.table.entries <==> exists e :: e in t.trie.explicit && Above(e, d)
    {
      AgreementAnswers(w, t.trie.explicit, t.table, d);
    }
  }

  lemma AgreesStep(w: World, trace: Trace)
    requires Tree(w) && Steady(w, trace) && Run(trace) && NeverReAdds(trace) && trace.Snoc?
    requires Agrees(w, Last(trace.init).trie.explicit, Last(trace.init).table)
    ensures Agrees(w, Last(trace).trie.explicit, Last(trace).table)
  {
    var op, junk := trace.last.op, trace.last.junk;
    NextRoundStarts(trace.init, if op.AddPath? then Raise else Lower, w, junk);
    OpAgrees(w, junk, Last(trace.init), op, Last(trace));
  }

  /** One operation keeps the agreement. */
  lemma OpAgrees(w: World, junk: Key -> nat, s: State, op: Op, t: State)
    requires Tree(w) && (forall k :: junk(k) == 0) && T.WellFormed(s.trie) && Step(w, junk, s, op, t)
    requires Agrees(w, s.trie.explicit, s.table) 
    requires op.AddPath? && op.path in w.ino ==> op.path !in s.trie.explicit
    requires Starts(Round(if op.AddPath? then Raise else Lower, w, s.table, s.nonce + 1, junk))
    ensures Agrees(w, t.trie.explicit, t.table)
  {
    ExplicitAfter(w, junk, s, op, t);
    match op
    case AddPath(p) =>
      if p in w.ino {
        var r := Round(Raise, w, s.table, t.nonce, junk);
        var expanded :| Done(r, p, expanded, t.table);
        AddAgreesExactly(r, p, expanded, t.table, s.trie.explicit);
      } else {
        OutsideWorld(w, s.trie.explicit, t.trie.explicit, p, s.table);
      }
    case RmPath(p) =>
      if p in s.trie.explicit && p in w.ino {
        var r := Round(Lower, w, s.table, t.nonce, junk);
        var expanded :| Done(r, p, expanded, t.table);
        RemoveAgrees(r, p, expanded, t.table, s.trie.explicit);
      } else if p in s.trie.explicit {
        OutsideWorld(w, s.trie.explicit, t.trie.explicit, p, s.table);
      }
    case RefreshStamps =>
  }

  // ---------------------------------------------------------------- runs with re-adds

  /** How many adds of resolved paths at or above `d` the run made. */
  function Adds(w: World, trace: Trace, d: Path): nat {
    match trace
    case Nil => 0
    case Snoc(init, e) =>
      Adds(w, init, d) + if e.op.AddPath? && e.op.path in w.ino && Above(e.op.path, d) then 1 else 0
  }

  /** And how many removals of resolved paths that were explicit. */
  function Removals(w: World, trace: Trace, d: Path): nat {
    match trace
    case Nil => 0
    case Snoc(init, e) =>
      Removals(w, init, d)
      + if e.op.RmPath? && e.op.path in w.ino && e.op.path in Last(init).trie.explicit && Above(e.op.path, d) then 1 else 0
  }

  /** The table counts `d` at least once for each explicit path that covers it. */
  ghost predicate Covering(w: World, explicit: set<Path>, t: Table) {
    && (forall d :: d in w.ino ==> CountOf(t, w.ino[d]) >= |Covers(explicit, d)|)
    && (forall k :: k in t.entries ==> k in w.ino.Values)
  }

  lemma MembersStay(r: Round, root: Path, expanded: List<Path>, t: Table)
    requires Tree(r.world) && Starts(r) && Done(r, root, expanded, t)
    requires forall k :: k in r.before.entries ==> k in r.world.ino.Values
    ensures forall k :: k in t.entries ==> k in r.world.ino.Values
  {
    forall k | k in t.entries ensures k in r.world.ino.Values {
      if k !in r.world.ino.Values {
        RoundMembers(r, root, expanded, t, k);
      }
    }
  }

  /** Every add of a resolved path counts, whether it was explicit already or not. */
  lemma AddCounts(w: World, junk: Key -> nat, s: State, p: Path, t: State)
    requires Tree(w) && (forall k :: junk(k) == 0) && T.WellFormed(s.trie) && Step(w, junk, s, AddPath(p), t)
    requires Covering(w, s.trie.explicit, s.table) && Starts(Round(Raise, w, s.table, s.nonce + 1, junk))
    ensures Covering(w, t.trie.explicit, t.table)
    ensures forall d :: d in w.ino ==>
              CountOf(t.table, w.ino[d]) == CountOf(s.table, w.ino[d]) + if p in w.ino && Above(p, d) then 1 else 0
  {
    ExplicitAfter(w, junk, s, AddPath(p), t);
    if p in w.ino {
      var r := Round(Raise, w, s.table, t.nonce, junk);
      var expanded :| Done(r, p, expanded, t.table);
      MembersStay(r, p, expanded, t.table);
      forall d | d in w.ino
        ensures CountOf(t.table, w.ino[d]) == CountOf(s.table, w.ino[d]) + if Above(p, d) then 1 else 0
        ensures CountOf(t.table, w.ino[d]) >= |Covers(t.trie.explicit, d)|
      {
        RoundCount(r, p, expanded, t.table, d);
        CoversAdd(s.trie.explicit, p, d);
      }
    } else {
      OutsideCovers(w, s.trie.explicit, t.trie.explicit, p);
    }
  }

  lemma RmCountsAt(r: Round, p: Path, expanded: List<Path>, t: Table, explicit: set<Path>, d: Path)
    requires r.mode == Lower && Tree(r.world) && Starts(r) && Done(r, p, expanded, t) && d in r.world.ino && p in explicit
    requires CountOf(r.before, r.world.ino[d]) >= |Covers(explicit, d)|
    ensures CountOf(t, r.world.ino[d]) == CountOf(r.before, r.world.ino[d]) - if Above(p, d) then 1 else 0
    ensures CountOf(t, r.world.ino[d]) >= |Covers(explicit - {p}, d)|
  {
    RoundCount(r, p, expanded, t, d);
    CoversRemove(explicit, p, d);
    assert Above(p, d) ==> p in Covers(explicit, d);
  }

  /** Every removal of a resolved explicit path takes one count back. */
  lemma RmCounts(w: World, junk: Key -> nat, s: State, p: Path, t: State)
    requires Tree(w) && T.WellFormed(s.trie) && Step(w, junk, s, RmPath(p), t)
    requires Covering(w, s.trie.explicit, s.table) && Starts(Round(Lower, w, s.table, s.nonce + 1, junk))
    ensures Covering(w, t.trie.explicit, t.table)
    ensures forall d :: d in w.ino ==>
              CountOf(t.table, w.ino[d]) ==
              CountOf(s.table, w.ino[d]) - if p in w.ino && p in s.trie.explicit && Above(p, d) then 1 else 0
  {
    ExplicitAfter(w, junk, s, RmPath(p), t);
    if p in s.trie.explicit && p in w.ino {
      var r := Round(Lower, w, s.table, t.nonce, junk);
      var expanded :| Done(r, p, expanded, t.table);
      MembersStay(r, p, expanded, t.table);
      forall d | d in w.ino
        ensures CountOf(t.table, w.ino[d]) == CountOf(s.table, w.ino[d]) - if Above(p, d) then 1 else 0
        ensures CountOf(t.table, w.ino[d]) >= |Covers(t.trie.explicit, d)|
      {
        RmCountsAt(r, p, expanded, t.table, s.trie.explicit, d);
      }
    } else if p in s.trie.explicit {
      OutsideCovers(w, s.trie.explicit, t.trie.explicit, p);
    }
  }

  /** A path outside the world covers nothing in it. */
  lemma OutsideCovers(w: World, before: set<Path>, after: set<Path>, p: Path)
    requires w.WellFormed() && p !in w.ino && before - {p} == after - {p}
    ensures forall d :: d in w.ino ==> Covers(after, d) == Covers(before, d)
  {
    forall d | d in w.ino ensures Covers(after, d) == Covers(before, d) {
      forall e | e in before + after && Above(e, d) ensures e in before && e in after {
        WorldClosed(w, e, d);
        assert e in before - {p} <==> e in after - {p};
      }
    }
  }

  /** Over every run on a fixed tree with zeroed memory, re-adds included: the count of an inode
      is the number of resolved adds at or above it less the resolved removals of explicit paths
      there, and no less than the number of explicit paths that cover it. */
  lemma {:induction false} RunCounts(w: World, trace: Trace)
    requires Tree(w) && Steady(w, trace) && Run(trace)
    ensures Covering(w, Last(trace).trie.explicit, Last(trace).table)
    ensures forall d :: d in w.ino ==>
              CountOf(Last(trace).table, w.ino[d]) == Adds(w, trace, d) - Removals(w, trace, d)
  {
    if trace.Snoc? {
      RunCounts(w, trace.init);
      StepCounts(w, trace);
    }
  }

  lemma StepCounts(w: World, trace: Trace)
    requires Tree(w) && Steady(w, trace) && Run(trace) && trace.Snoc?
    requires Covering(w, Last(trace.init).trie.explicit, Last(trace.init).table)
    ensures Covering(w, Last(trace).trie.explicit, Last(trace).table)
    ensures forall d :: d in w.ino ==>
              CountOf(Last(trace).table, w.ino[d]) - CountOf(Last(trace.init).table, w.ino[d]) ==
              (Adds(w, trace, d) - Adds(w, trace.init, d)) - (Removals(w, trace, d) - Removals(w, trace.init, d))
  {
    var s, e := Last(trace.init), trace.last;
    NextRoundStarts(trace.init, if e.op.AddPath? then Raise else Lower, w, e.junk);
    match e.op
    case AddPath(p) => AddCounts(w, e.junk, s, p, e.after);
    case RmPath(p) => RmCounts(w, e.junk, s, p, e.after);
    case RefreshStamps =>
  }

  /** What an operation does to the explicit paths, on any well-formed trie. */
  lemma ExplicitAfter(w: World, junk: Key -> nat, s: State, op: Op, s': State)
    requires w.WellFormed() && T.WellFormed(s.trie) && Step(w, junk, s, op, s')
    ensures s'.trie.explicit ==
            match op
            case AddPath(p) => if Named(p) then s.trie.explicit + {p} else s.trie.explicit
            case RmPath(p) => s.trie.explicit - {p}
            case RefreshStamps => s.trie.explicit
    ensures op.AddPath? && op.path in w.ino ==> Named(op.path)
  {
    match op
    case AddPath(p) =>
      T.GrowRefines(s.trie, p);
      if p in w.ino {
        WorldNamed(w, p);
      }
    case RmPath(p) =>
      if p in s.trie.explicit {
        PruneExplicit(s.trie.(explicit := s.trie.explicit - {p}), p);
      }
    case RefreshStamps =>
  }

  lemma {:induction false} WorldNamed(w: World, p: Path)
    requires w.WellFormed() && p in w.ino
    ensures Named(p)
  {
    if p.Node? {
      WorldNamed(w, p.up);
    }
  }

  lemma {:induction false} PruneExplicit(t: T.Trie, q: Path)
    ensures T.Prune(t, q).explicit == t.explicit
    decreases q
  {
    if !T.Stops(t, q) {
      PruneExplicit(T.Detach(t, q), q.up);
    }
  }

  lemma {:induction false} WorldClosed(w: World, p: Path, d: Path)
    requires w.WellFormed() && d in w.ino && Above(p, d)
    ensures p in w.ino
  {
    if p != d {
      WorldClosed(w, p, d.up);
    }
  }

  lemma OutsideWorld(w: World, before: set<Path>, after: set<Path>, p: Path, t: Table)
    requires w.WellFormed() && p !in w.ino && before - {p} == after - {p} && Agrees(w, before, t)
    ensures Agrees(w, after, t)
  {
    OutsideCovers(w, before, after, p);
  }
}
