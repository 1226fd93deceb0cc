/** What a round does to the table: on every graph for a raising round, and on trees for
    both kinds. */
module RoundFacts {
  import opened Paths
  import opened Lists
  import opened InodeTable
  import opened Rounds
  import opened Wrappers

  // ---------------------------------------------------------------- encounters of a key

  /** How often the inode `k` was encountered. */
  function Occ(w: World, met: List<Path>, k: Key): nat {
    match met
    case Nil => 0
    case Snoc(init, d) => Occ(w, init, k) + if w.Of(d) == k then 1 else 0
  }

  lemma {:induction false} OccIn(w: World, met: List<Path>, k: Key)
    ensures Occ(w, met, k) > 0 <==> exists d :: d in Bag(met) && w.Of(d) == k
  {
    if met.Snoc? {
      OccIn(w, met.init, k);
      if Occ(w, met, k) > 0 {
        if w.Of(met.last) == k {
          assert met.last in Bag(met);
        } else {
          var d :| d in Bag(met.init) && w.Of(d) == k;
          assert d in Bag(met);
        }
      }
    }
  }

  /** The state a round starts from: every stamp lies before its nonce. */
  ghost predicate Starts(r: Round) {
    && r.nonce > 0
    && forall k {:trigger r.before.entries[k]} :: k in r.before.entries ==> r.before.entries[k].stamp < r.nonce
  }

  function EntryOf(t: Table, k: Key): Option<Entry> {
    if k in t.entries then Some(t.entries[k]) else None
  }

  // ---------------------------------------------------------------- raising, on every graph

  /** The entry of `k` after `n` encounters in a raising round.  A new node is stamped 0, so
      it is counted, and expanded, once more at its second encounter.  A number of 2^32 or more
      gets no entry. */
  function Raised(r: Round, k: Key, n: nat): Option<Entry> {
    if n == 0 || k.inode >= UINT_LIMIT then EntryOf(r.before, k)
    else if k in r.before.entries then Some(Entry(r.before.entries[k].refCount + 1, r.nonce))
    else if n == 1 then Some(Entry(r.junk(k) + 1, 0))
    else Some(Entry(r.junk(k) + 2, r.nonce))
  }

  lemma {:induction false} RaiseEntries(r: Round, met: List<Path>, k: Key)
    requires r.mode == Raise && Starts(r)
    ensures EntryOf(r.After(met), k) == Raised(r, k, Occ(r.world, met, k))
  {
    if met.Snoc? {
      RaiseEntries(r, met.init, k);
    }
  }

  /** How often `n` encounters of `k` in a raising round expand it. */
  function Expanded(r: Round, k: Key, n: nat): nat {
    if n == 0 || k.inode >= UINT_LIMIT then n
    else if n == 1 || k in r.before.entries then 1
    else 2
  }

  /** Every known inode is expanded at most once and every new one at most twice, but a number
      of 2^32 or more at every encounter. */
  lemma {:induction false} RaiseExpansions(r: Round, met: List<Path>, k: Key)
    requires r.mode == Raise && Starts(r)
    ensures Occ(r.world, r.Pushed(met), k) == Expanded(r, k, Occ(r.world, met, k))
  {
    if met.Snoc? {
      RaiseExpansions(r, met.init, k);
      RaiseEntries(r, met.init, k);
      if met.init.Nil? {
        assert r.Pushed(met) == Snoc(r.Pushed(met.init), met.last);
      }
    }
  }

  /** A walk along the graph from `root`, latest dentry last. */
  ghost predicate Walk(w: World, root: Path, walk: List<Path>) {
    match walk
    case Nil => false
    case Snoc(init, d) => if init.Nil? then d == root else Walk(w, root, init) && d in Bag(w.Next(init.last))
  }

  ghost predicate Reaches(w: World, root: Path, k: Key) {
    exists walk :: Walk(w, root, walk) && w.Of(walk.last) == k
  }

  ghost predicate LeadsTo(w: World, e: Path, k: Key) {
    exists c :: c in Bag(w.Next(e)) && w.Of(c) == k
  }

  /** Every dentry of the inode of `d` leads wherever `d` leads. */
  ghost predicate AgreesAt(w: World, d: Path) {
    forall e, k :: e in w.ino && w.Of(e) == w.Of(d) && LeadsTo(w, d, k) ==> LeadsTo(w, e, k)
  }

  /** Dentries of the same inode lead to the same inodes. */
  ghost predicate AliasesAgree(w: World) {
    forall d :: d in w.ino ==> AgreesAt(w, d)
  }

  lemma {:induction false} NextMet(w: World, root: Path, expanded: List<Path>, e: Path)
    requires e in Bag(expanded)
    ensures Bag(w.Next(e)) <= Bag(w.Met(root, expanded))
  {
    BagAppend(w.Met(root, expanded.init), w.Next(expanded.last));
    if e != expanded.last {
      NextMet(w, root, expanded.init, e);
    }
  }

  lemma {:induction false} RootMet(w: World, root: Path, expanded: List<Path>)
    ensures root in Bag(w.Met(root, expanded))
  {
    if expanded.Snoc? {
      RootMet(w, root, expanded.init);
      BagAppend(w.Met(root, expanded.init), w.Next(expanded.last));
    }
  }

  /** An encountered inode is expanded through some dentry of it. */
  lemma ExpandedFor(r: Round, root: Path, expanded: List<Path>, k: Key) returns (e: Path)
    requires r.mode == Raise && Starts(r) && r.world.WellFormed() && root in r.world.ino && r.Tracks(root, [], expanded)
    requires Occ(r.world, r.world.Met(root, expanded), k) > 0
    ensures e in Bag(expanded) && e in r.world.ino && r.world.Of(e) == k
  {
    var met := r.world.Met(root, expanded);
    RaiseExpansions(r, met, k);
    OccIn(r.world, r.Pushed(met), k);
    e :| e in Bag(r.Pushed(met)) && r.world.Of(e) == k;
    r.PushedWereMet(met);
    r.MetIn(root, expanded, e);
    assert e in Bag(expanded) + multiset([]);
  }

  /** Wherever an expanded dentry leads is encountered. */
  lemma LedToMet(w: World, root: Path, expanded: List<Path>, e: Path, k: Key)
    requires e in Bag(expanded) && LeadsTo(w, e, k)
    ensures Occ(w, w.Met(root, expanded), k) > 0
  {
    NextMet(w, root, expanded, e);
    OccIn(w, w.Met(root, expanded), k);
  }

  /** Whatever lies on a walk is encountered, if the dentries on the way agree with the others
      of their inode, one of which may be expanded in their place. */
  lemma {:induction false} WalkIsMet(r: Round, root: Path, expanded: List<Path>, walk: List<Path>)
    requires r.mode == Raise && Starts(r) && r.world.WellFormed() && root in r.world.ino && r.Tracks(root, [], expanded)
    requires Walk(r.world, root, walk) && forall d :: d in Bag(walk.init) ==> AgreesAt(r.world, d)
    ensures Occ(r.world, r.world.Met(root, expanded), r.world.Of(walk.last)) > 0
  {
    var w := r.world;
    if walk.init.Nil? {
      RootMet(w, root, expanded);
      OccIn(w, w.Met(root, expanded), w.Of(root));
    } else {
      var up := walk.init.last;
      assert up in Bag(walk.init) && forall d :: d in Bag(walk.init.init) ==> d in Bag(walk.init);
      WalkIsMet(r, root, expanded, walk.init);
      var e := ExpandedFor(r, root, expanded, w.Of(up));
      assert LeadsTo(w, up, w.Of(walk.last));
      LedToMet(w, root, expanded, e, w.Of(walk.last));
    }
  }

  /** Whatever is encountered lies on a walk. */
  lemma {:induction false} MetIsWalk(w: World, root: Path, expanded: List<Path>, d: Path) returns (walk: List<Path>)
    requires w.Ordered(root, expanded) && d in Bag(w.Met(root, expanded))
    ensures Walk(w, root, walk) && walk.last == d
  {
    match expanded
    case Nil => walk := Snoc(Nil, root);
    case Snoc(init, e) =>
      BagAppend(w.Met(root, init), w.Next(e));
      if d in Bag(w.Next(e)) {
        var up := MetIsWalk(w, root, init, e);
        walk := Snoc(up, d);
      } else {
        walk := MetIsWalk(w, root, init, d);
      }
  }

  lemma {:induction false} WalkIn(w: World, root: Path, walk: List<Path>)
    requires w.WellFormed() && root in w.ino && Walk(w, root, walk)
    ensures forall d :: d in Bag(walk) ==> d in w.ino
  {
    if walk.init.Snoc? {
      WalkIn(w, root, walk.init);
      w.NextIn(walk.init.last, walk.last);
    }
  }

  /** A finished raising round on any graph, cycles included: it encounters only what is
      reachable, and all of it when dentries of one inode agree.  An inode it does not encounter
      keeps its entry; one already in the table gains exactly 1; a new one starts from the junk
      in its memory and gains min(2, encounters). */
  lemma RaisingRound(r: Round, root: Path, expanded: List<Path>, k: Key)
    requires r.mode == Raise && Starts(r) && r.world.WellFormed() && root in r.world.ino && r.Tracks(root, [], expanded)
    ensures var after := EntryOf(r.After(r.world.Met(root, expanded)), k);
            var n := Occ(r.world, r.world.Met(root, expanded), k);
            && (n > 0 ==> Reaches(r.world, root, k))
            && (AliasesAgree(r.world) && Reaches(r.world, root, k) ==> n > 0)
            && (n == 0 || k.inode >= UINT_LIMIT ==> after == EntryOf(r.before, k))
            && (n > 0 && k.inode < UINT_LIMIT ==>
                  && after.Some?
                  && after.value.refCount ==
                     if k in r.before.entries then r.before.entries[k].refCount + 1
                     else r.junk(k) + if n == 1 then 1 else 2)
  {
    RaiseEntries(r, r.world.Met(root, expanded), k);
    MetReaches(r.world, root, expanded, k);
    if AliasesAgree(r.world) && Reaches(r.world, root, k) {
      ReachesMet(r, root, expanded, k);
    }
  }

  lemma MetReaches(w: World, root: Path, expanded: List<Path>, k: Key)
    requires w.Ordered(root, expanded)
    ensures Occ(w, w.Met(root, expanded), k) > 0 ==> Reaches(w, root, k)
  {
    var met := w.Met(root, expanded);
    OccIn(w, met, k);
    if Occ(w, met, k) > 0 {
      var d :| d in Bag(met) && w.Of(d) == k;
      var walk := MetIsWalk(w, root, expanded, d);
    }
  }

  lemma ReachesMet(r: Round, root: Path, expanded: List<Path>, k: Key)
    requires r.mode == Raise && Starts(r) && r.world.WellFormed() && root in r.world.ino && r.Tracks(root, [], expanded)
    requires AliasesAgree(r.world) && Reaches(r.world, root, k)
    ensures Occ(r.world, r.world.Met(root, expanded), k) > 0
  {
    var walk :| Walk(r.world, root, walk) && r.world.Of(walk.last) == k;
    WalkIn(r.world, root, walk);
    assert forall d :: d in Bag(walk.init) ==> d in Bag(walk);
    WalkIsMet(r, root, expanded, walk);
  }

  // ---------------------------------------------------------------- the tree under a round

  /** No expanded dentry is a symlink. */
  ghost predicate Linkless(w: World, expanded: List<Path>) {
    forall e :: e in Bag(expanded) ==> e !in w.link
  }

  predicate Among(names: seq<string>, i: nat, name: string)
    requires i <= |names|
  {
    i > 0 && (names[i - 1] == name || Among(names, i - 1, name))
  }

  lemma {:induction false} AmongIn(names: seq<string>, i: nat, name: string)
    requires i <= |names|
    ensures Among(names, i, name) <==> exists j :: 0 <= j < i && names[j] == name
  {
    if i > 0 {
      AmongIn(names, i - 1, name);
    }
  }

  lemma PositiveStep(w: World, d: Path, names: seq<string>, i: nat, c: Path)
    requires 0 < i <= |names| && c in w.ino
    ensures Bag(w.Positive(d, names, i))[c] == Bag(w.Positive(d, names, i - 1))[c] + One(c == Node(d, names[i - 1]))
  {
  }

  lemma {:induction false} PositiveCount(w: World, d: Path, names: seq<string>, i: nat, c: Path)
    requires i <= |names| && Distinct(names) && c in w.ino
    ensures Bag(w.Positive(d, names, i))[c] == One(c.Node? && c.up == d && Among(names, i, c.name))
  {
    if i > 0 {
      PositiveCount(w, d, names, i - 1, c);
      PositiveStep(w, d, names, i, c);
      AmongIn(names, i - 1, names[i - 1]);
    }
  }

  lemma NextCount(w: World, e: Path, d: Path)
    requires w.WellFormed() && d in w.ino && e !in w.link
    ensures Bag(w.Next(e))[d] == if d.Node? && d.up == e then 1 else 0
  {
    if d.Node? && d.up == e {
      PositiveCount(w, e, w.subdirs[e], |w.subdirs[e]|, d);
      AmongIn(w.subdirs[e], |w.subdirs[e]|, d.name);
    } else if d in Bag(w.Next(e)) {
      w.PositiveIn(e, w.subdirs[e], |w.subdirs[e]|, d);
    }
  }

  /** A dentry is looked at once per expansion of its parent, and the root once more. */
  lemma {:induction false} MetCount(w: World, root: Path, expanded: List<Path>, d: Path)
    requires w.WellFormed() && d in w.ino && Linkless(w, expanded)
    ensures Bag(w.Met(root, expanded))[d] == (if d == root then 1 else 0) + if d.Node? then Bag(expanded)[d.up] else 0
  {
    match expanded
    case Nil =>
    case Snoc(init, e) =>
      assert e in Bag(expanded) && forall x :: x in Bag(init) ==> x in Bag(expanded);
      MetCount(w, root, init, d);
      BagAppend(w.Met(root, init), w.Next(e));
      NextCount(w, e, d);
  }

  /** Everything looked at lies below the root. */
  lemma {:induction false} MetBelow(w: World, root: Path, expanded: List<Path>, d: Path)
    requires Linkless(w, expanded) && w.Ordered(root, expanded) && d in Bag(w.Met(root, expanded))
    ensures Above(root, d)
  {
    match expanded
    case Nil =>
    case Snoc(init, e) =>
      assert e in Bag(expanded) && forall x :: x in Bag(init) ==> x in Bag(expanded);
      BagAppend(w.Met(root, init), w.Next(e));
      if d in Bag(w.Next(e)) {
        w.PositiveIn(e, w.subdirs[e], |w.subdirs[e]|, d);
        MetBelow(w, root, init, e);
      } else {
        MetBelow(w, root, init, d);
      }
  }

  /** A round that follows no symlink looks at no dentry twice, at any moment. */
  lemma {:induction false} MetOnce(r: Round, root: Path, expanded: List<Path>, d: Path)
    requires r.world.WellFormed() && Linkless(r.world, expanded) && d in r.world.ino
    requires r.world.Ordered(root, expanded) && Bag(expanded) <= Bag(r.Pushed(r.world.Met(root, expanded)))
    ensures Bag(r.world.Met(root, expanded))[d] <= 1
  {
    var met := r.world.Met(root, expanded);
    MetCount(r.world, root, expanded, d);
    if d.Node? {
      r.PushedWereMet(met);
      assert Bag(expanded)[d.up] <= Bag(r.Pushed(met))[d.up] <= Bag(met)[d.up];
      if d != root {
        MetOnce(r, root, expanded, d.up);
      } else if d.up in Bag(met) {
        MetBelow(r.world, root, expanded, d.up);
        AboveDepth(root, d.up);
      }
    }
  }

  // ---------------------------------------------------------------- lowering rounds follow no symlink

  /** In a lowering round only directories with an entry in d_subdirs are expanded. */
  lemma {:induction false} PushedAreDirs(r: Round, root: Path, met: List<Path>, d: Path)
    requires r.mode == Lower && r.world.WellFormed() && First(met, root) && d in Bag(r.Pushed(met)) && d != root
    ensures d !in r.world.link
  {
    if d in Bag(r.Pushed(met.init)) {
      PushedAreDirs(r, root, met.init, d);
    }
  }

  ghost predicate First(met: List<Path>, root: Path) {
    match met
    case Nil => true
    case Snoc(init, d) => if init.Nil? then d == root else First(init, root)
  }

  lemma {:induction false} MetFirst(w: World, root: Path, expanded: List<Path>)
    ensures First(w.Met(root, expanded), root) && w.Met(root, expanded) != Nil
  {
    if expanded.Snoc? {
      MetFirst(w, root, expanded.init);
      FirstAppend(w.Met(root, expanded.init), w.Next(expanded.last), root);
    }
  }

  lemma {:induction false} FirstAppend(met: List<Path>, next: List<Path>, root: Path)
    requires First(met, root) && met != Nil
    ensures First(Append(met, next), root) && Append(met, next) != Nil
  {
    if next.Snoc? {
      FirstAppend(met, next.init, root);
    }
  }

  lemma TrackedLinkless(r: Round, root: Path, pending: seq<Path>, expanded: List<Path>)
    requires r.mode == Lower && r.world.WellFormed() && root !in r.world.link && r.Tracks(root, pending, expanded)
    ensures Linkless(r.world, expanded) && forall i :: 0 <= i < |pending| ==> pending[i] !in r.world.link
  {
    var met := r.world.Met(root, expanded);
    MetFirst(r.world, root, expanded);
    forall e | e in Bag(expanded) + multiset(pending) ensures e !in r.world.link {
      assert e in Bag(r.Pushed(met));
      if e != root {
        PushedAreDirs(r, root, met, e);
      }
    }
    assert forall i :: 0 <= i < |pending| ==> pending[i] in multiset(pending);
  }

  // ---------------------------------------------------------------- one visit of one inode

  lemma {:induction false} Untouched(r: Round, met: List<Path>, k: Key)
    requires Occ(r.world, met, k) == 0
    ensures EntryOf(r.After(met), k) == EntryOf(r.before, k)
  {
    if met.Snoc? {
      Untouched(r, met.init, k);
    }
  }

  /** What one visit makes of an entry. */
  function Visited(r: Round, k: Key): Option<Entry> {
    EntryOf(r.VisitKey(r.before, k).0, k)
  }

  lemma {:induction false} VisitedOnce(r: Round, met: List<Path>, k: Key)
    requires Occ(r.world, met, k) == 1
    ensures EntryOf(r.After(met), k) == Visited(r, k)
  {
    if r.world.Of(met.last) == k {
      Untouched(r, met.init, k);
    } else {
      VisitedOnce(r, met.init, k);
    }
  }

  /** The inode of `d` has no other dentry. */
  ghost predicate Unique(w: World, d: Path) {
    d in w.ino && forall e :: e in w.ino && w.ino[e] == w.ino[d] ==> e == d
  }

  /** Inodes with a single dentry: no hard links. */
  ghost predicate NoHardLinks(w: World) {
    forall d :: d in w.ino ==> Unique(w, d)
  }

  /** Only dentries with nothing below them are hard links. */
  ghost predicate DirsUnique(w: World) {
    forall d :: d in w.ino && d in w.subdirs && w.subdirs[d] != [] ==> Unique(w, d)
  }

  lemma {:induction false} OccOnly(w: World, met: List<Path>, d: Path)
    requires forall e :: e in Bag(met) && w.Of(e) == w.Of(d) ==> e == d
    ensures Occ(w, met, w.Of(d)) == Bag(met)[d]
  {
    if met.Snoc? {
      assert met.last in Bag(met) && forall e :: e in Bag(met.init) ==> e in Bag(met);
      OccOnly(w, met.init, d);
    }
  }

  lemma OccIsCount(w: World, met: List<Path>, d: Path)
    requires Unique(w, d) && forall e :: e in Bag(met) ==> e in w.ino
    ensures Occ(w, met, w.ino[d]) == Bag(met)[d]
  {
    OccOnly(w, met, d);
  }

  /** The latest dentry is pushed if its inode is new to the round and it has a child. */
  lemma LastPushed(r: Round, met: List<Path>)
    requires Starts(r) && met.Snoc? && Occ(r.world, met.init, r.world.Of(met.last)) == 0
    requires met.last in r.world.subdirs && r.world.subdirs[met.last] != []
    ensures r.Pushed(met) == Snoc(r.Pushed(met.init), met.last)
  {
    var k := r.world.Of(met.last);
    Untouched(r, met.init, k);
    assert EntryOf(r.After(met.init), k) == EntryOf(r.before, k);
  }

  /** A dentry met once is pushed, unless a lowering round finds nothing below it. */
  lemma {:induction false} PushedOnce(r: Round, met: List<Path>, d: Path)
    requires Unique(r.world, d) && Starts(r) && forall e :: e in Bag(met) ==> e in r.world.ino
    requires Bag(met)[d] == 1 && d in r.world.subdirs && r.world.subdirs[d] != []
    ensures Bag(r.Pushed(met))[d] == 1
  {
    assert met.last in Bag(met) && forall e :: e in Bag(met.init) ==> e in Bag(met);
    if met.last == d {
      OccIsCount(r.world, met.init, d);
      LastPushed(r, met);
      r.PushedWereMet(met.init);
    } else {
      PushedOnce(r, met.init, d);
    }
  }

  /** A finished round that follows no symlink has looked at exactly the tree below its root,
      and at every dentry of it once. */
  lemma {:induction false} TreeMet(r: Round, root: Path, expanded: List<Path>, d: Path)
    requires r.world.WellFormed() && Linkless(r.world, expanded) && DirsUnique(r.world) && Starts(r)
    requires root in r.world.ino && d in r.world.ino && r.Tracks(root, [], expanded)
    ensures Bag(r.world.Met(root, expanded))[d] == if Above(root, d) then 1 else 0
  {
    var met := r.world.Met(root, expanded);
    MetOnce(r, root, expanded, d);
    if d in Bag(met) {
      MetBelow(r.world, root, expanded, d);
    }
    if Above(root, d) {
      MetCount(r.world, root, expanded, d);
      if d != root {
        TreeMet(r, root, expanded, d.up);
        forall e | e in Bag(met) ensures e in r.world.ino {
          r.MetIn(root, expanded, e);
        }
        PushedOnce(r, met, d.up);
      }
    }
  }

  /** A finished raising round has met everything below its root, symlinks or not. */
  lemma {:induction false} BelowMet(r: Round, root: Path, expanded: List<Path>, d: Path)
    requires r.mode == Raise && r.world.WellFormed() && DirsUnique(r.world) && Starts(r)
    requires root in r.world.ino && r.Tracks(root, [], expanded) && d in r.world.ino && Above(root, d)
    ensures d in Bag(r.world.Met(root, expanded))
  {
    var w, met := r.world, r.world.Met(root, expanded);
    if d == root {
      RootMet(w, root, expanded);
    } else {
      BelowMet(r, root, expanded, d.up);
      OccIn(w, met, w.Of(d.up));
      var e := ExpandedFor(r, root, expanded, w.Of(d.up));
      assert Unique(w, d.up);
      NextMet(w, root, expanded, d.up);
      NextCount(w, d.up, d);
    }
  }

  /** What a finished round over a tree does to the entry of `k`: one visit for the inodes
      below the root, nothing for the others. */
  lemma TreeRound(r: Round, root: Path, expanded: List<Path>, k: Key)
    requires r.world.WellFormed() && Linkless(r.world, expanded) && NoHardLinks(r.world) && Starts(r)
    requires root in r.world.ino && r.Tracks(root, [], expanded)
    ensures EntryOf(r.After(r.world.Met(root, expanded)), k) ==
            if exists d :: d in r.world.ino && r.world.ino[d] == k && Above(root, d) then Visited(r, k)
            else EntryOf(r.before, k)
  {
    var met := r.world.Met(root, expanded);
    forall e | e in Bag(met) ensures e in r.world.ino {
      r.MetIn(root, expanded, e);
    }
    if k in r.world.ino.Values {
      var d :| d in r.world.ino && r.world.ino[d] == k;
      TreeMet(r, root, expanded, d);
      OccIsCount(r.world, met, d);
      if Above(root, d) {
        VisitedOnce(r, met, k);
      } else {
        Untouched(r, met, k);
      }
    } else {
      OccIn(r.world, met, k);
      Untouched(r, met, k);
    }
  }
}
