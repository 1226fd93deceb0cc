/** The departures at real inputs: small dentry graphs on which the rounds do what they are not
    for. */
module Departures {
  import opened Paths
  import opened Lists
  import opened InodeTable
  import opened Rounds
  import opened RoundFacts
  import opened Entrances
  import opened RoundBounds
  import opened LowerFacts
  import opened Index
  import opened RoundTrips
  import opened Wrappers
  import T = Trie

  const TOP := Key(1, 1)
  const FILE := Key(1, 2)
  const LINK := Key(1, 3)

  function At(name: string): Path {
    Node(Root, name)
  }

  // ---------------------------------------------------------------- a removal that hangs

  /** Some dentry of `w` with inode `k` lies at or below an explicit path. */
  ghost predicate Covered(w: World, explicit: set<Path>, k: Key) {
    exists e, x :: e in w.ino && w.ino[e] == k && x in explicit && Above(x, e)
  }

  /** When the counts agree with graph `w`, a removal over graph `w'` hangs exactly if some inode
      of a known device at or below its root was not covered in `w`. */
  lemma HangsWhereUncovered(w: World, w': World, explicit: set<Path>, t: Table, root: Path)
    requires Agrees(w, explicit, t) && Tree(w')
    ensures Misses(w', root, t) <==>
            exists d :: d in w'.ino && Above(root, d) && w'.ino[d].device in t.devices && !Covered(w, explicit, w'.ino[d])
  {
    forall k ensures k in t.entries <==> Covered(w, explicit, k) {
      if k in t.entries {
        var e :| e in w.ino && w.ino[e] == k;
        AgreementAnswers(w, explicit, t, e);
      }
      if Covered(w, explicit, k) {
        var e, x :| e in w.ino && w.ino[e] == k && x in explicit && Above(x, e);
        AgreementAnswers(w, explicit, t, e);
      }
    }
    forall d ensures !Shared(w', root, d) {
    }
    forall d ensures MissAt(w', root, t, d) <==>
                     d in w'.ino && Above(root, d) && w'.ino[d].device in t.devices && !Covered(w, explicit, w'.ino[d]) {
    }
  }

  /** An empty directory. */
  const BARE := World(map[Root := TOP], map[Root := []], map[])

  /** The same directory with one file in it. */
  const FILED := World(map[Root := TOP, Node(Root, "f") := FILE], map[Root := ["f"], Node(Root, "f") := []], map[])

  const RAISED := Table({1}, map[TOP := Entry(1, 0)])

  /** The add of the empty directory. */
  lemma BareRaised(r: Round)
    requires r == Round(Raise, BARE, EMPTY_TABLE, 1, r.junk) && r.junk(TOP) == 0
    ensures Done(r, Root, Snoc(Nil, Root), RAISED)
  {
    var met := Snoc(Nil, Root);
    assert BARE.Next(Root) == Nil && BARE.Met(Root, Nil) == met;
    assert BARE.Met(Root, met) == met && BARE.Ordered(Root, Nil) && Root in Bag(met);
    assert r.After(Nil) == EMPTY_TABLE && r.After(met) == RAISED && r.Pushed(met) == met;
  }

  lemma FiledMisses()
    ensures Tree(FILED) && Misses(FILED, Root, RAISED)
  {
    assert MissAt(FILED, Root, RAISED, At("f"));
  }

  ghost predicate CanHang(trace: Trace, w: World) {
    Run(trace) && Tree(w) && Root in Last(trace).trie.explicit && Misses(w, Root, Last(trace).table)
  }

  lemma ProtectStep(junk: Key -> nat, after: State)
    requires junk(TOP) == 0 && after == State(T.Add(T.EMPTY, Root).0, RAISED, 1)
    ensures T.WellFormed(T.EMPTY) && Step(BARE, junk, INITIAL, AddPath(Root), after) && Root in after.trie.explicit
  {
    BareRaised(Round(Raise, BARE, EMPTY_TABLE, 1, junk));
  }

  /** In ordinary use: protect a directory, create a file in it, and remove the protection.  The
      removal never comes back. */
  lemma OrdinaryUseHangs()
    ensures exists trace, w :: CanHang(trace, w)
  {
    var junk: Key -> nat := _ => 0;
    var after := State(T.Add(T.EMPTY, Root).0, RAISED, 1);
    var trace := Snoc(Nil, Event(BARE, junk, AddPath(Root), after));
    ProtectStep(junk, after);
    FiledMisses();
    assert Last(Nil) == INITIAL && Run(Nil) && Run(trace);
    assert CanHang(trace, FILED);
  }

  // ---------------------------------------------------------------- a count left behind

  /** Protect a path twice and remove the protection once. */
  ghost predicate ReAdded(trace: Trace, p: Path) {
    && trace.Snoc? && trace.init.Snoc? && trace.init.init.Snoc? && trace.init.init.init == Nil
    && trace.init.init.last.op == AddPath(p) && trace.init.last.op == AddPath(p) && trace.last.op == RmPath(p)
  }

  lemma ReAddedExplicit(w: World, trace: Trace, p: Path)
    requires Tree(w) && p in w.ino && Run(trace) && Steady(w, trace) && ReAdded(trace, p)
    ensures Last(trace.init).trie.explicit == {p} && Last(trace).trie.explicit == {}
  {
    var second := trace.init;
    var first := second.init;
    assert Run(first) && Run(second) && Steady(w, first) && Steady(w, second);
    WorldNamed(w, p);
    ExplicitAfter(w, first.last.junk, INITIAL, AddPath(p), Last(first));
    ExplicitAfter(w, second.last.junk, Last(first), AddPath(p), Last(second));
    ExplicitAfter(w, trace.last.junk, Last(second), RmPath(p), Last(trace));
  }

  lemma ReAddedCounts(w: World, trace: Trace, p: Path)
    requires ReAdded(trace, p) && p in w.ino && Last(trace.init).trie.explicit == {p}
    ensures Adds(w, trace, p) == 2 && Removals(w, trace, p) == 1
  {
    var second := trace.init;
    var first := second.init;
    assert first.init == Nil && Adds(w, Nil, p) == 0 && Removals(w, Nil, p) == 0;
    assert Adds(w, first, p) == Adds(w, first.init, p) + 1 && Removals(w, first, p) == Removals(w, first.init, p);
    assert Adds(w, second, p) == Adds(w, first, p) + 1 && Removals(w, second, p) == Removals(w, first, p);
    assert Adds(w, trace, p) == Adds(w, second, p) && Removals(w, trace, p) == Removals(w, second, p) + 1;
  }

  /** Its inode stays counted, and the check goes on answering that it is protected, although no
      explicit path is left. */
  lemma ReAddStaysCounted(w: World, trace: Trace, p: Path)
    requires Tree(w) && p in w.ino && Run(trace) && Steady(w, trace) && ReAdded(trace, p)
    ensures CountOf(Last(trace).table, w.ino[p]) == 1 && Last(trace).trie.explicit == {}
  {
    ReAddedExplicit(w, trace, p);
    ReAddedCounts(w, trace, p);
    RunCounts(w, trace);
  }

  // ---------------------------------------------------------------- a new file counted twice

  /** A directory with a file and a symlink to it. */
  const LINKED := World(map[Root := TOP, Node(Root, "f") := FILE, Node(Root, "l") := LINK],
                        map[Root := ["f", "l"], Node(Root, "f") := [], Node(Root, "l") := []],
                        map[Node(Root, "l") := Some(Node(Root, "f"))])

  lemma LinkedNext()
    ensures LINKED.Next(Root) == Snoc(Snoc(Nil, At("f")), At("l")) && LINKED.Next(At("l")) == Snoc(Nil, At("f"))
    ensures LINKED.Of(Root) == TOP && LINKED.Of(At("f")) == FILE && LINKED.Of(At("l")) == LINK
  {
    assert "f"[0] != "l"[0];
    assert LINKED.Positive(Root, ["f", "l"], 0) == Nil;
    assert LINKED.Positive(Root, ["f", "l"], 1) == Snoc(Nil, At("f"));
  }

  lemma LinkedFormed()
    ensures LINKED.WellFormed()
  {
    assert "f"[0] != "l"[0];
  }

  lemma LinkedUnique()
    ensures NoHardLinks(LINKED)
  {
    assert "f"[0] != "l"[0];
  }

  /** What a list of one or two dentries is worth. */
  lemma OccFew(w: World, d: Path, e: Path)
    ensures Occ(w, Snoc(Nil, d), w.Of(d)) > 0
    ensures Occ(w, Snoc(Snoc(Nil, d), e), w.Of(d)) > 0 && e in Bag(Snoc(Snoc(Nil, d), e))
  {
    assert Occ(w, Snoc(Nil, d), w.Of(d)) == 1;
  }

  lemma StepReaches(w: World, root: Path, d: Path)
    requires d in Bag(w.Next(root))
    ensures Reaches(w, root, w.Of(root)) && Reaches(w, root, w.Of(d))
  {
    assert Walk(w, root, Snoc(Nil, root)) && Snoc(Nil, root).last == root;
    assert Walk(w, root, Snoc(Snoc(Nil, root), d)) && Snoc(Snoc(Nil, root), d).last == d;
  }

  /** Whatever the order, one add over it counts the new file twice. */
  lemma SymlinkCountsTwice(r: Round, expanded: List<Path>)
    requires r.mode == Raise && r.world == LINKED && r.before == EMPTY_TABLE && r.nonce > 0
    requires r.Tracks(Root, [], expanded)
    ensures EntryOf(r.After(LINKED.Met(Root, expanded)), FILE) == Some(Entry(r.junk(FILE) + 2, r.nonce))
  {
    LinkedFormed();
    LinkedUnique();
    UniqueMatch(LINKED);
    MatchAgrees(LINKED);
    LinkedNext();
    OccFew(LINKED, At("f"), At("l"));
    StepReaches(LINKED, Root, At("l"));
    CountedTwice(r, Root, expanded, FILE, Root, At("l"));
  }

  // ---------------------------------------------------------------- a count that stays

  /** A directory with two hard links to one file. */
  const TWINS := World(map[Root := TOP, Node(Root, "a") := FILE, Node(Root, "b") := FILE],
                       map[Root := ["a", "b"], Node(Root, "a") := [], Node(Root, "b") := []], map[])

  /** Adding and removing it leaves the file counted for good. */
  lemma TwinsStayCounted(up: Round, down: Round, raised: List<Path>, lowered: List<Path>, t: Table)
    requires ThereAndBack(up, down, Root, raised, lowered, t) && up.world == TWINS
    requires up.before == EMPTY_TABLE && forall k :: up.junk(k) == 0
    ensures CountOf(t, FILE) == 1
  {
    assert TWINS.ino[At("a")] == FILE && TWINS.ino[At("b")] == FILE && At("a") != At("b");
    assert Shared(TWINS, Root, At("a"));
    SharedMet(up, Root, raised, At("a"));
    RaisedBy(up, TWINS.Met(Root, raised), down.before, FILE);
    assert Below(TWINS, Root, FILE);
    LoweredOnce(down, Root, lowered, t, FILE);
  }

  // ---------------------------------------------------------------- an add that never ends

  /** A directory with a symlink back to it, both inode numbers beyond 32 bits. */
  const CIRCLE := World(map[Root := Key(1, UINT_LIMIT), Node(Root, "l") := Key(1, UINT_LIMIT + 1)],
                        map[Root := ["l"], Node(Root, "l") := []], map[Node(Root, "l") := Some(Root)])

  lemma CircleFormed()
    ensures CIRCLE.WellFormed()
  {
  }

  lemma CircleIsEndless()
    ensures Endless(CIRCLE, Root)
  {
    assert CIRCLE.Positive(Root, ["l"], 0) == Nil;
    assert CIRCLE.Next(Root) == Snoc(Nil, At("l")) && CIRCLE.Next(At("l")) == Snoc(Nil, Root);
    var start := Snoc(Nil, Root);
    var loop := Snoc(Snoc(start, At("l")), Root);
    assert Walk(CIRCLE, Root, start) && Walk(CIRCLE, Root, Snoc(start, At("l"))) && Walk(CIRCLE, Root, loop);
    assert Reachable(CIRCLE, Root, Root);
    assert WideLoop(CIRCLE, Root, loop);
  }
}
