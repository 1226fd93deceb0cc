/** store_iterate.c: the depth-first rounds over the dentry graph that raise or lower the
    counts of the inode store. */
module Traversal {
  import opened Paths
  import opened Lists
  import opened InodeTable
  import opened InodeStore
  import opened Rounds
  import opened RoundFacts
  import opened RoundBounds
  import opened LowerFacts
  import opened Wrappers

  // ---------------------------------------------------------------- one expansion

  /** Always true.  Looked holds behind a quantifier that is triggered by this predicate, so its
      parts are in view only where a proof mentions Opened, and the loops, which just hand it
      on, stay cheap. */
  predicate Opened(n: nat) {
    true
  }

  /** How far an expansion has come when it has looked at `next`. */
  datatype Expansion = Expansion(next: List<Path>, pushed: List<Path>, stack: seq<Path>, held: multiset<Path>)
  {
    /** It began with trace `met`, this stack and these locks, and the table is now `u`. */
    ghost predicate From(r: Round, met: List<Path>, u: Table, stack0: seq<Path>, held0: multiset<Path>) {
      match this
      case Expansion(next, pushed, stack, held) =>
        && u == r.After(Append(met, next))
        && r.Pushed(Append(met, next)) == Append(r.Pushed(met), pushed)
        && multiset(stack) == multiset(stack0) + Bag(pushed)
        && held == held0 + Bag(pushed)
    }

    /** The first `i` names under `dir` have been looked at. */
    ghost predicate Looked(r: Round, met: List<Path>, u: Table, stack0: seq<Path>, held0: multiset<Path>, dir: Path, i: nat) {
      forall n {:trigger Opened(n)} :: Opened(n) ==>
        && dir in r.world.subdirs && i <= |r.world.subdirs[dir]|
        && next == r.world.Positive(dir, r.world.subdirs[dir], i)
        && From(r, met, u, stack0, held0)
        && (r.mode == Lower ==> NoMiss(r, Append(met, next)))
    }

    /** One more encounter: the inode is locked and counted, and it keeps its lock exactly if
        it goes on the stack. */
    function With(push: bool, d: Path): Expansion {
      if push then Expansion(Snoc(next, d), Snoc(pushed, d), [d] + stack, held + multiset{d})
      else Expansion(Snoc(next, d), pushed, stack, held)
    }

    /** Giving back the lock of the expanded dentry leaves exactly the locks of the stack. */
    lemma Released(r: Round, met: List<Path>, u: Table, stack0: seq<Path>)
      requires stack0 != [] && From(r, met, u, stack0[1..], multiset(stack0))
      ensures held - multiset{stack0[0]} == multiset(stack)
    {
      assert stack0 == [stack0[0]] + stack0[1..];
    }

    lemma More(r: Round, met: List<Path>, u: Table, stack0: seq<Path>, held0: multiset<Path>,
               d: Path, v: Table, o: Outcome)
      requires From(r, met, u, stack0, held0) && met != Nil && (v, o) == r.Visit(u, d)
      ensures With(r.Pushes(o, d), d).From(r, met, v, stack0, held0)
    {
    }
  }

  // ---------------------------------------------------------------- store_iterate_add

  /** One encounter: locks and counts `d`, and pushes it unless it was seen. */
  method Encounter(store: InodeStore, w: World, junk: Key -> nat, d: Path, e: Expansion,
                   ghost r: Round, ghost met: List<Path>, ghost stack: seq<Path>, ghost held: multiset<Path>)
    returns (e': Expansion)
    requires store.Valid() && w.WellFormed() && d in w.ino
    requires r.mode == Raise && r.world == w && r.nonce == store.nonce && r.junk == junk && met != Nil
    requires e.From(r, met, store.table, stack, held)
    modifies store`stores, store`table
    ensures store.Valid() && e'.next == Snoc(e.next, d) && e'.From(r, met, store.table, stack, held)
  {
    var k := w.ino[d];
    ghost var before := store.table;
    var o := store.InsertInode(k.device, k.inode, junk(k));
    e.More(r, met, before, stack, held, d, store.table, o);
    e' := e.With(o != Seen, d);
  }

  /** The encounter with the `i`-th name under `dir`, unless that dentry is negative. */
  method Child(store: InodeStore, w: World, junk: Key -> nat, dir: Path, i: nat, e: Expansion,
               ghost r: Round, ghost met: List<Path>, ghost stack: seq<Path>, ghost held: multiset<Path>)
    returns (e': Expansion)
    requires store.Valid() && w.WellFormed() && dir in w.subdirs && i < |w.subdirs[dir]|
    requires r.mode == Raise && r.world == w && r.nonce == store.nonce && r.junk == junk && met != Nil
    requires e.Looked(r, met, store.table, stack, held, dir, i)
    modifies store`stores, store`table
    ensures store.Valid() && e'.Looked(r, met, store.table, stack, held, dir, i + 1)
  {
    assert Opened(0);
    e' := e;
    var curr := Node(dir, w.subdirs[dir][i]);
    if curr in w.ino {
      e' := Encounter(store, w, junk, curr, e, r, met, stack, held);
    }
  }

  method ExpandChildren(store: InodeStore, w: World, junk: Key -> nat, dir: Path, stack: seq<Path>, held: multiset<Path>,
                        ghost r: Round, ghost met: List<Path>)
    returns (e: Expansion)
    requires store.Valid() && w.WellFormed() && dir in w.ino
    requires r.mode == Raise && r.world == w && r.nonce == store.nonce && r.junk == junk
    requires met != Nil && store.table == r.After(met)
    modifies store`stores, store`table
    ensures store.Valid() && e.Looked(r, met, store.table, stack, held, dir, |w.subdirs[dir]|)
  {
    e := Expansion(Nil, Nil, stack, held);
    assert e.Looked(r, met, store.table, stack, held, dir, 0) by {
      assert Opened(0);
    }
    var i := 0;
    var n := |w.subdirs[dir]|;
    while i < n
      invariant i <= n && store.Valid() && store.nonce == r.nonce && e.Looked(r, met, store.table, stack, held, dir, i)
    {
      e := Child(store, w, junk, dir, i, e, r, met, stack, held);
      i := i + 1;
    }
  }

  /** Expands one dentry: a symlink into its target, anything else into its children. */
  method Expand(store: InodeStore, w: World, junk: Key -> nat, dir: Path, stack: seq<Path>, held: multiset<Path>,
                ghost r: Round, ghost met: List<Path>)
    returns (e: Expansion)
    requires store.Valid() && w.WellFormed() && dir in w.ino
    requires r.mode == Raise && r.world == w && r.nonce == store.nonce && r.junk == junk
    requires met != Nil && store.table == r.After(met)
    modifies store`stores, store`table
    ensures store.Valid() && e.next == w.Next(dir) && e.From(r, met, store.table, stack, held)
  {
    assert Opened(0);
    if dir in w.link {
      e := Expansion(Nil, Nil, stack, held);
      if w.link[dir].Some? {
        var target := w.link[dir].value;
        e := Encounter(store, w, junk, target, e, r, met, stack, held);
      }
    } else {
      e := ExpandChildren(store, w, junk, dir, stack, held, r, met);
    }
  }

  /** One turn of the REPLAY loop: pops a dentry, expands it and gives back its lock. */
  method Pop(store: InodeStore, w: World, root: Path, junk: Key -> nat, stack: seq<Path>, held: multiset<Path>,
             ghost r: Round, ghost expanded: List<Path>)
    returns (stack': seq<Path>, held': multiset<Path>)
    requires store.Valid() && w.WellFormed() && root in w.ino
    requires r.mode == Raise && r.world == w && r.nonce == store.nonce && r.junk == junk
    requires stack != [] && held == multiset(stack)
    requires store.table == r.After(w.Met(root, expanded)) && r.Tracks(root, stack, expanded)
    modifies store`stores, store`table
    ensures store.Valid() && held' == multiset(stack')
    ensures var more := Snoc(expanded, stack[0]);
            store.table == r.After(w.Met(root, more)) && r.Tracks(root, stack', more)
  {
    var dir := stack[0];
    ghost var met := w.Met(root, expanded);
    assert stack == [dir] + stack[1..];
    r.PendingIn(root, stack, expanded, dir);
    MetFirst(w, root, expanded);
    var e := Expand(store, w, junk, dir, stack[1..], held, r, met);
    e.Released(r, met, store.table, stack);
    r.Tracked(root, dir, stack[1..], expanded, e.stack, e.pushed);
    stack', held' := e.stack, e.held - multiset{dir};
  }

  /** The REPLAY loop: pops and expands until the stack is empty. */
  method Replay(store: InodeStore, w: World, root: Path, junk: Key -> nat, ghost r: Round, ghost bound: nat)
    returns (held: multiset<Path>, ghost expanded: List<Path>)
    requires store.Valid() && w.WellFormed() && root in w.ino
    requires r.mode == Raise && r.world == w && r.nonce == store.nonce && r.junk == junk && Bounded(r, root, bound)
    requires store.table == r.After(Snoc(Nil, root))
    modifies store`stores, store`table
    ensures store.Valid() && held == multiset{}
    ensures r.Tracks(root, [], expanded) && store.table == r.After(w.Met(root, expanded))
  {
    var stack := [root];
    held, expanded := multiset{root}, Nil;
    while stack != []
      invariant store.Valid() && held == multiset(stack)
      invariant store.table == r.After(w.Met(root, expanded)) && r.Tracks(root, stack, expanded)
      decreases bound - Length(expanded)
    {
      ghost var dir := stack[0];
      stack, held := Pop(store, w, root, junk, stack, held, r, expanded);
      expanded := Snoc(expanded, dir);
      assert Length(expanded) <= bound;
    }
  }

  /** store_iterate_add: terminates on every finite graph, cycles included, unless the cycle is
      one of inode numbers of 2^32 or more, and gives back every inode lock it took. */
  method IterateAdd(store: InodeStore, w: World, root: Path, junk: Key -> nat, ghost r: Round)
    returns (seen: bool, held: multiset<Path>, ghost expanded: List<Path>)
    requires store.Valid() && w.WellFormed() && root in w.ino && !Endless(w, root)
    requires r == Round(Raise, w, store.table, store.nonce, junk)
    modifies store`stores, store`table
    ensures store.Valid() && held == multiset{}
    ensures seen <==> w.ino[root].inode < UINT_LIMIT && w.ino[root] in r.before.entries
                      && r.before.entries[w.ino[root]].stamp >= r.nonce
    ensures seen ==> store.table == r.before
    ensures !seen ==> r.Tracks(root, [], expanded) && store.table == r.After(w.Met(root, expanded))
  {
    held, expanded := multiset{root}, Nil;
    var o := store.InsertInode(w.ino[root].device, w.ino[root].inode, junk(w.ino[root]));
    seen := o == Seen;
    if seen {
      held := held - multiset{root};
    } else {
      ghost var bound := RoundBound(r, root);
      held, expanded := Replay(store, w, root, junk, r, bound);
    }
  }

  // ---------------------------------------------------------------- store_iterate_rm

  /** How store_iterate_rm ends.  NeverReturns is the miss of rm_inode_ht on a known device;
      FreedEntry is the stack entry of a symlink root, freed while it is still linked. */
  datatype RmStatus = Completed | AlreadySeen | FreedEntry | NeverReturns

  /** Expanding the pending `dir` next, a lowering round still meets nothing twice. */
  lemma NextIsNew(r: Round, root: Path, dir: Path, stack: seq<Path>, expanded: List<Path>, c: Path)
    requires r.mode == Lower && r.world.WellFormed() && root in r.world.ino && root !in r.world.link
    requires r.Tracks(root, [dir] + stack, expanded) && c in r.world.ino
    ensures Bag(r.world.Met(root, expanded))[c] + Bag(r.world.Next(dir))[c] <= 1
  {
    var met, more := r.world.Met(root, expanded), Snoc(expanded, dir);
    TrackedLinkless(r, root, [dir] + stack, expanded);
    assert ([dir] + stack)[0] == dir;
    assert multiset([dir] + stack) == multiset{dir} + multiset(stack);
    r.PendingIn(root, [dir] + stack, expanded, dir);
    r.PushedMore(met, r.world.Next(dir));
    assert r.world.Met(root, more) == Append(met, r.world.Next(dir));
    BagAppend(met, r.world.Next(dir));
    MetOnce(r, root, more, c);
  }

  /** The positive dentries of the tree a round has not looked at yet. */
  ghost function Unmet(w: World, root: Path, expanded: List<Path>): set<Path> {
    set d | d in w.ino && d !in Bag(w.Met(root, expanded))
  }

  lemma UnmetShrinks(r: Round, root: Path, dir: Path, stack: seq<Path>, expanded: List<Path>)
    requires r.mode == Lower && r.world.WellFormed() && root in r.world.ino && root !in r.world.link
    requires r.Tracks(root, [dir] + stack, expanded)
    ensures var more := Snoc(expanded, dir);
            if r.world.Next(dir) == Nil then Unmet(r.world, root, more) == Unmet(r.world, root, expanded)
            else Unmet(r.world, root, more) < Unmet(r.world, root, expanded)
  {
    var next := r.world.Next(dir);
    BagAppend(r.world.Met(root, expanded), next);
    if next != Nil {
      assert next.last in Bag(next);
      r.world.NextIn(dir, next.last);
      NextIsNew(r, root, dir, stack, expanded, next.last);
      assert next.last in Unmet(r.world, root, expanded) && next.last !in Unmet(r.world, root, Snoc(expanded, dir));
    }
  }

  lemma {:induction false} PositiveGrows(w: World, d: Path, names: seq<string>, i: nat, n: nat)
    requires i <= n <= |names|
    ensures Bag(w.Positive(d, names, i)) <= Bag(w.Positive(d, names, n))
  {
    if i < n {
      PositiveGrows(w, d, names, i, n - 1);
      assert Bag(w.Positive(d, names, n - 1)) <= Bag(w.Positive(d, names, n));
    }
  }

  /** The next child was not looked at before in a lowering round. */
  lemma ChildIsNew(r: Round, root: Path, dir: Path, stack: seq<Path>, expanded: List<Path>, i: nat)
    requires r.mode == Lower && r.world.WellFormed() && root in r.world.ino && root !in r.world.link
    requires r.Tracks(root, [dir] + stack, expanded)
    requires dir in r.world.ino && dir !in r.world.link && i < |r.world.subdirs[dir]|
    ensures var curr := Node(dir, r.world.subdirs[dir][i]);
            curr in r.world.ino ==>
              Bag(Append(r.world.Met(root, expanded), r.world.Positive(dir, r.world.subdirs[dir], i)))[curr] == 0
  {
    var w, names := r.world, r.world.subdirs[dir];
    var curr := Node(dir, names[i]);
    if curr in w.ino {
      NextIsNew(r, root, dir, stack, expanded, curr);
      PositiveGrows(w, dir, names, i + 1, |names|);
      assert Bag(w.Positive(dir, names, i + 1))[curr] == Bag(w.Positive(dir, names, i))[curr] + 1;
      BagAppend(w.Met(root, expanded), w.Positive(dir, names, i));
    }
  }

  lemma SofarIn(r: Round, root: Path, dir: Path, expanded: List<Path>, i: nat, e: Path)
    requires r.world.WellFormed() && root in r.world.ino && dir in r.world.ino && i <= |r.world.subdirs[dir]|
    requires e in Bag(Append(r.world.Met(root, expanded), r.world.Positive(dir, r.world.subdirs[dir], i)))
    requires Linkless(r.world, expanded) && r.world.Ordered(root, expanded) && Above(root, dir)
    ensures e in r.world.ino && Above(root, e)
  {
    BagAppend(r.world.Met(root, expanded), r.world.Positive(dir, r.world.subdirs[dir], i));
    if e in Bag(r.world.Positive(dir, r.world.subdirs[dir], i)) {
      r.world.PositiveIn(dir, r.world.subdirs[dir], i, e);
    } else {
      r.MetIn(root, expanded, e);
      MetBelow(r.world, root, expanded, e);
    }
  }

  /** A removal misses only below a root that gives it a reason to. */
  lemma StuckReason(r: Round, root: Path, dir: Path, stack: seq<Path>, expanded: List<Path>, i: nat)
    requires r.mode == Lower && r.world.WellFormed() && root in r.world.ino && root !in r.world.link && Starts(r)
    requires r.Tracks(root, [dir] + stack, expanded)
    requires dir in r.world.ino && dir !in r.world.link && i < |r.world.subdirs[dir]|
    requires var curr := Node(dir, r.world.subdirs[dir][i]);
             && curr in r.world.ino
             && var sofar := Append(r.world.Met(root, expanded), r.world.Positive(dir, r.world.subdirs[dir], i));
                NoMiss(r, sofar) && r.Visit(r.After(sofar), curr).1 == Stuck
    ensures Misses(r.world, root, r.before)
  {
    var w := r.world;
    var curr := Node(dir, w.subdirs[dir][i]);
    var sofar := Append(w.Met(root, expanded), w.Positive(dir, w.subdirs[dir], i));
    ChildIsNew(r, root, dir, stack, expanded, i);
    TrackedLinkless(r, root, [dir] + stack, expanded);
    assert ([dir] + stack)[0] == dir;
    r.PendingIn(root, [dir] + stack, expanded, dir);
    MetBelow(w, root, expanded, dir);
    forall e | e in Bag(sofar) ensures e in w.ino && Above(root, e) {
      SofarIn(r, root, dir, expanded, i, e);
    }
    MissReason(r, root, sofar, curr);
    assert MissAt(w, root, r.before, curr);
  }

  /** One encounter of a lowering round; the flag says that the removal never comes back. */
  method RmEncounter(store: InodeStore, w: World, d: Path, e: Expansion,
                     ghost r: Round, ghost met: List<Path>, ghost stack: seq<Path>, ghost held: multiset<Path>)
    returns (e': Expansion, stuck: bool)
    requires store.Valid() && w.WellFormed() && d in w.ino
    requires r.mode == Lower && r.world == w && r.nonce == store.nonce && met != Nil
    requires e.From(r, met, store.table, stack, held) && NoMiss(r, Append(met, e.next))
    modifies store`stores, store`table
    ensures store.Valid() && (stuck <==> r.Visit(old(store.table), d).1 == Stuck)
    ensures !stuck ==>
              && e'.next == Snoc(e.next, d) && e'.From(r, met, store.table, stack, held)
              && NoMiss(r, Append(met, e'.next))
    ensures stuck ==> e'.next == e.next && e'.held == e.held + multiset{d} && store.table == old(store.table)
  {
    ghost var before := store.table;
    var o := store.RmInode(w.ino[d].device, w.ino[d].inode);
    stuck := o == Stuck;
    if stuck {
      e' := e.(held := e.held + multiset{d});
    } else {
      e.More(r, met, before, stack, held, d, store.table, o);
      e' := e.With(o != Seen && w.subdirs[d] != [], d);
    }
  }

  /** The encounter with the `i`-th name under `dir`, unless that dentry is negative. */
  method RmChild(store: InodeStore, w: World, dir: Path, i: nat, e: Expansion,
                 ghost r: Round, ghost met: List<Path>, ghost stack: seq<Path>, ghost held: multiset<Path>)
    returns (e': Expansion, stuck: bool)
    requires store.Valid() && w.WellFormed() && dir in w.subdirs && i < |w.subdirs[dir]|
    requires r.mode == Lower && r.world == w && r.nonce == store.nonce && met != Nil
    requires e.Looked(r, met, store.table, stack, held, dir, i)
    modifies store`stores, store`table
    ensures store.Valid()
    ensures !stuck ==> e'.Looked(r, met, store.table, stack, held, dir, i + 1)
    ensures stuck ==> var curr := Node(dir, w.subdirs[dir][i]);
                      curr in w.ino && r.Visit(old(store.table), curr).1 == Stuck
  {
    assert Opened(0);
    e', stuck := e, false;
    var curr := Node(dir, w.subdirs[dir][i]);
    if curr in w.ino {
      e', stuck := RmEncounter(store, w, curr, e, r, met, stack, held);
    }
  }

  /** One turn of the loop over the children, with the reason why it may not come back. */
  method RmNext(store: InodeStore, w: World, root: Path, dir: Path, i: nat, e: Expansion,
                ghost r: Round, ghost expanded: List<Path>, ghost stack: seq<Path>, ghost held: multiset<Path>)
    returns (e': Expansion, stuck: bool)
    requires store.Valid() && w.WellFormed() && root in w.ino && root !in w.link && dir in w.ino && dir !in w.link
    requires i < |w.subdirs[dir]|
    requires r.mode == Lower && r.world == w && r.nonce == store.nonce && r.Tracks(root, [dir] + stack, expanded)
    requires e.Looked(r, w.Met(root, expanded), store.table, stack, held, dir, i)
    modifies store`stores, store`table
    ensures store.Valid()
    ensures !stuck ==> e'.Looked(r, w.Met(root, expanded), store.table, stack, held, dir, i + 1)
    ensures stuck && Starts(r) ==> Misses(w, root, r.before)
  {
    assert Opened(0);
    MetFirst(w, root, expanded);
    e', stuck := RmChild(store, w, dir, i, e, r, w.Met(root, expanded), stack, held);
    if stuck && Starts(r) {
      StuckReason(r, root, dir, stack, expanded, i);
    }
  }

  /** Lowers the children of one directory. */
  method RmChildren(store: InodeStore, w: World, root: Path, dir: Path, stack: seq<Path>, held: multiset<Path>,
                    ghost r: Round, ghost expanded: List<Path>)
    returns (e: Expansion, stuck: bool)
    requires store.Valid() && w.WellFormed() && root in w.ino && root !in w.link && dir in w.ino && dir !in w.link
    requires r.mode == Lower && r.world == w && r.nonce == store.nonce
    requires store.table == r.After(w.Met(root, expanded)) && r.Tracks(root, [dir] + stack, expanded)
    requires NoMiss(r, w.Met(root, expanded))
    modifies store`stores, store`table
    ensures store.Valid()
    ensures !stuck ==> e.Looked(r, w.Met(root, expanded), store.table, stack, held, dir, |w.subdirs[dir]|)
    ensures stuck && Starts(r) ==> Misses(w, root, r.before)
  {
    e, stuck := Expansion(Nil, Nil, stack, held), false;
    assert e.Looked(r, w.Met(root, expanded), store.table, stack, held, dir, 0) by {
      assert Opened(0);
    }
    var i := 0;
    var n := |w.subdirs[dir]|;
    while i < n
      invariant i <= n && store.Valid() && store.nonce == r.nonce && !stuck
      invariant e.Looked(r, w.Met(root, expanded), store.table, stack, held, dir, i)
    {
      e, stuck := RmNext(store, w, root, dir, i, e, r, expanded, stack, held);
      if stuck {
        break;
      }
      i := i + 1;
    }
  }

  /** One turn of the REPLAY loop of a lowering round. */
  method RmPop(store: InodeStore, w: World, root: Path, stack: seq<Path>, held: multiset<Path>,
               ghost r: Round, ghost expanded: List<Path>)
    returns (stack': seq<Path>, held': multiset<Path>, stuck: bool, ghost expanded': List<Path>)
    requires store.Valid() && w.WellFormed() && root in w.ino && root !in w.link
    requires r.mode == Lower && r.world == w && r.nonce == store.nonce
    requires stack != [] && held == multiset(stack)
    requires store.table == r.After(w.Met(root, expanded)) && r.Tracks(root, stack, expanded)
    requires NoMiss(r, w.Met(root, expanded))
    modifies store`stores, store`table
    ensures store.Valid()
    ensures !stuck ==>
              && held' == multiset(stack') && NoMiss(r, w.Met(root, expanded'))
              && store.table == r.After(w.Met(root, expanded')) && r.Tracks(root, stack', expanded')
              && (Unmet(w, root, expanded') < Unmet(w, root, expanded)
                  || (Unmet(w, root, expanded') == Unmet(w, root, expanded) && |stack'| < |stack|))
    ensures stuck && Starts(r) ==> Misses(w, root, r.before)
  {
    assert Opened(0);
    var dir := stack[0];
    assert stack == [dir] + stack[1..];
    r.PendingIn(root, stack, expanded, dir);
    TrackedLinkless(r, root, stack, expanded);
    UnmetShrinks(r, root, dir, stack[1..], expanded);
    expanded' := Snoc(expanded, dir);
    var e;
    e, stuck := RmChildren(store, w, root, dir, stack[1..], held, r, expanded);
    stack', held' := e.stack, e.held;
    if !stuck {
      e.Released(r, w.Met(root, expanded), store.table, stack);
      r.Tracked(root, dir, stack[1..], expanded, e.stack, e.pushed);
      held' := e.held - multiset{dir};
    }
  }

  /** The REPLAY loop of a lowering round. */
  method RmReplay(store: InodeStore, w: World, root: Path, ghost r: Round)
    returns (held: multiset<Path>, stuck: bool, ghost expanded: List<Path>)
    requires store.Valid() && w.WellFormed() && root in w.ino && root !in w.link
    requires r.mode == Lower && r.world == w && r.nonce == store.nonce
    requires store.table == r.After(Snoc(Nil, root)) && NoMiss(r, Snoc(Nil, root))
    modifies store`stores, store`table
    ensures store.Valid()
    ensures DirsUnique(w) && Starts(r) ==> (stuck <==> Misses(w, root, r.before))
    ensures !stuck ==>
              && held == multiset{} && Linkless(w, expanded)
              && r.Tracks(root, [], expanded) && store.table == r.After(w.Met(root, expanded))
  {
    var stack := [root];
    held, stuck, expanded := multiset{root}, false, Nil;
    while stack != []
      invariant store.Valid() && held == multiset(stack) && NoMiss(r, w.Met(root, expanded))
      invariant store.table == r.After(w.Met(root, expanded)) && r.Tracks(root, stack, expanded)
      decreases Unmet(w, root, expanded), |stack|
    {
      stack, held, stuck, expanded := RmPop(store, w, root, stack, held, r, expanded);
      if stuck {
        return;
      }
    }
    TrackedLinkless(r, root, [], expanded);
    if DirsUnique(w) && Starts(r) {
      DoneMissesNothing(r, root, expanded);
    }
  }

  /** A removal of the root itself misses exactly when the root is not counted. */
  lemma RootMisses(r: Round, root: Path)
    requires r.mode == Lower && root in r.world.ino
    ensures NoMiss(r, Snoc(Nil, root)) <==> r.Visit(r.before, root).1 != Stuck
    ensures r.Visit(r.before, root).1 == Stuck ==> MissAt(r.world, root, r.before, root)
  {
    assert r.After(Nil) == r.before && NoMiss(r, Nil);
  }

  /** store_iterate_rm.  Where directories have one dentry each, the round never returns exactly
      if it has something to miss; from a symlink exactly if that is not counted. */
  method IterateRm(store: InodeStore, w: World, root: Path, ghost r: Round)
    returns (status: RmStatus, held: multiset<Path>, ghost expanded: List<Path>)
    requires store.Valid() && w.WellFormed() && root in w.ino
    requires r == Round(Lower, w, store.table, store.nonce, r.junk)
    modifies store`stores, store`table
    ensures store.Valid()
    ensures status == AlreadySeen <==>
              w.ino[root] in r.before.entries && r.before.entries[w.ino[root]].stamp >= r.nonce
    ensures status == AlreadySeen ==> store.table == r.before && held == multiset{}
    ensures status == FreedEntry <==>
              root in w.link && w.link[root].Some? && status != NeverReturns && status != AlreadySeen
    ensures status == Completed && root in w.link ==> w.link[root] == None
    ensures root !in w.link && DirsUnique(w) && Starts(r) ==> (status == NeverReturns <==> Misses(w, root, r.before))
    ensures root in w.link ==>
              (status == NeverReturns <==> w.ino[root] !in r.before.entries && w.ino[root].device in r.before.devices)
    ensures status == Completed ==>
              && held == multiset{} && (root !in w.link ==> Linkless(w, expanded))
              && r.Tracks(root, [], expanded) && store.table == r.After(w.Met(root, expanded))
  {
    status, held, expanded := Completed, multiset{root}, Nil;
    RootMisses(r, root);
    var o := store.RmInode(w.ino[root].device, w.ino[root].inode);
    if o == Seen {
      status, held := AlreadySeen, multiset{};
    } else if o == Stuck {
      status := NeverReturns;
    } else if root !in w.link {
      var stuck;
      held, stuck, expanded := RmReplay(store, w, root, r);
      status := if stuck then NeverReturns else Completed;
    } else if w.link[root].Some? {
      status := FreedEntry;
    } else {
      held, expanded := multiset{}, Snoc(Nil, root);
    }
  }
}
