/** The dentry graph, and the rounds of store_iterate.c as traces over it. */
module Rounds {
  import opened Paths
  import opened Lists
  import opened InodeTable
  import opened Wrappers

  // ---------------------------------------------------------------- the dentry graph

  /** A dentry is named by where it hangs.  `ino` gives the inode of every positive dentry,
      `subdirs` the names in its d_subdirs list (negative dentries included), and `link` the
      dentry a symlink resolves to, if it does. */
  datatype World = World(ino: map<Path, Key>, subdirs: map<Path, seq<string>>, link: map<Path, Option<Path>>)
  {
    function Of(d: Path): Key {
      if d in ino then ino[d] else Key(0, 0)
    }

    ghost predicate WellFormed() {
      match this
      case World(ino, subdirs, link) =>
        && ino.Keys <= subdirs.Keys && link.Keys <= ino.Keys
        && (forall d {:trigger subdirs[d]} :: d in ino ==> Distinct(subdirs[d]))
        && (forall d {:trigger d.up} :: d in ino && d.Node? ==> d.up in ino && d.name in subdirs[d.up] && d.name != "")
        && (forall d {:trigger link[d]} :: d in link ==>
              subdirs[d] == [] && (link[d].Some? ==> link[d].value in ino))
        && (forall d {:trigger Shadows(ino[d].inode)} :: d in ino ==> !Shadows(ino[d].inode))
    }

    /** Every inode number fits 32 bits. */
    ghost predicate Narrow() {
      forall d {:trigger ino[d]} :: d in ino ==> ino[d].inode < UINT_LIMIT
    }

    /** The positive dentries among the first `i` names under `d`. */
    function Positive(d: Path, names: seq<string>, i: nat): List<Path>
      requires i <= |names|
    {
      if i == 0 then Nil
      else if Node(d, names[i - 1]) in ino then Snoc(Positive(d, names, i - 1), Node(d, names[i - 1]))
      else Positive(d, names, i - 1)
    }

    /** What the expansion of `d` looks at, in order. */
    function Next(d: Path): List<Path> {
      if d in link then (match link[d] case None => Nil case Some(target) => Snoc(Nil, target))
      else if d in subdirs then Positive(d, subdirs[d], |subdirs[d]|)
      else Nil
    }

    /** What a round from `root` has looked at once `expanded` are expanded. */
    function Met(root: Path, expanded: List<Path>): List<Path> {
      match expanded
      case Nil => Snoc(Nil, root)
      case Snoc(init, d) => Append(Met(root, init), Next(d))
    }

    /** Every dentry was looked at before it was expanded. */
    ghost predicate Ordered(root: Path, expanded: List<Path>) {
      match expanded
      case Nil => true
      case Snoc(init, d) => Ordered(root, init) && d in Bag(Met(root, init))
    }

    lemma {:induction false} PositiveIn(d: Path, names: seq<string>, i: nat, c: Path)
      requires i <= |names| && c in Bag(Positive(d, names, i))
      ensures c in ino && c.Node? && c.up == d && c.name in names
    {
      if c != Node(d, names[i - 1]) || c !in ino {
        PositiveIn(d, names, i - 1, c);
      }
    }

    lemma NextIn(d: Path, c: Path)
      requires WellFormed() && c in Bag(Next(d))
      ensures c in ino
    {
      if d !in link {
        PositiveIn(d, subdirs[d], |subdirs[d]|, c);
      }
    }
  }

  // ---------------------------------------------------------------- a round, by its trace

  datatype Mode = Raise | Lower

  /** One round over `world`, with the nonce it stamps and the contents of fresh memory. */
  datatype Round = Round(mode: Mode, world: World, before: Table, nonce: nat, junk: Key -> nat)
  {
    function VisitKey(t: Table, k: Key): (Table, Outcome) {
      if mode == Raise then Enter(t, nonce, junk(k), k) else Remove(t, nonce, k)
    }

    function Visit(t: Table, d: Path): (Table, Outcome) {
      VisitKey(t, world.Of(d))
    }

    /** The table after the dentries `met` have been visited in order. */
    function After(met: List<Path>): Table {
      match met
      case Nil => before
      case Snoc(init, d) => Visit(After(init), d).0
    }

    /** Whether a visited dentry goes on the stack. */
    predicate Pushes(o: Outcome, d: Path) {
      o != Seen && (mode == Lower ==> d in world.subdirs && world.subdirs[d] != [])
    }

    /** The dentries that get expanded: the root, and those that were pushed. */
    function Pushed(met: List<Path>): List<Path> {
      match met
      case Nil => Nil
      case Snoc(init, d) =>
        if init.Nil? || Pushes(Visit(After(init), d).1, d) then Snoc(Pushed(init), d) else Pushed(init)
    }

    /** A round from `root` under way: `expanded` lists the expanded dentries in order, and
        `pending` waits to be expanded. */
    ghost predicate Tracks(root: Path, pending: seq<Path>, expanded: List<Path>) {
      && world.Ordered(root, expanded)
      && Bag(expanded) + multiset(pending) == Bag(Pushed(world.Met(root, expanded)))
    }

    lemma {:induction false} PushedWereMet(met: List<Path>)
      ensures Bag(Pushed(met)) <= Bag(met)
    {
      if met.Snoc? {
        PushedWereMet(met.init);
      }
    }

    lemma {:induction false} PushedMore(met: List<Path>, next: List<Path>)
      ensures Bag(Pushed(met)) <= Bag(Pushed(Append(met, next)))
    {
      if next.Snoc? {
        PushedMore(met, next.init);
      }
    }

    lemma {:induction false} MetIn(root: Path, expanded: List<Path>, d: Path)
      requires world.WellFormed() && root in world.ino && d in Bag(world.Met(root, expanded))
      ensures d in world.ino
    {
      if expanded.Snoc? {
        BagAppend(world.Met(root, expanded.init), world.Next(expanded.last));
        if d in Bag(world.Next(expanded.last)) {
          world.NextIn(expanded.last, d);
        } else {
          MetIn(root, expanded.init, d);
        }
      }
    }

    /** Whatever is pending has been looked at. */
    lemma PendingIn(root: Path, pending: seq<Path>, expanded: List<Path>, d: Path)
      requires world.WellFormed() && root in world.ino && Tracks(root, pending, expanded) && d in pending
      ensures d in Bag(world.Met(root, expanded)) && d in world.ino
    {
      assert d in multiset(pending);
      PushedWereMet(world.Met(root, expanded));
      MetIn(root, expanded, d);
    }

    /** Expanding `dir` keeps the round on track. */
    lemma Tracked(root: Path, dir: Path, stack: seq<Path>, expanded: List<Path>, stack': seq<Path>, pushed: List<Path>)
      requires world.WellFormed() && root in world.ino && Tracks(root, [dir] + stack, expanded)
      requires multiset(stack') == multiset(stack) + Bag(pushed)
      requires Pushed(Append(world.Met(root, expanded), world.Next(dir))) == Append(Pushed(world.Met(root, expanded)), pushed)
      ensures Tracks(root, stack', Snoc(expanded, dir))
    {
      assert world.Ordered(root, Snoc(expanded, dir)) by {
        PendingIn(root, [dir] + stack, expanded, dir);
      }
      BagAppend(Pushed(world.Met(root, expanded)), pushed);
      Moved(Bag(expanded), multiset(stack), multiset(stack'), Bag(pushed), dir);
      assert multiset([dir] + stack) == multiset{dir} + multiset(stack);
    }
  }

  /** `d` moves from what is pending to what is done, and `more` becomes pending. */
  lemma Moved(done: multiset<Path>, pending: multiset<Path>, pending': multiset<Path>, more: multiset<Path>, d: Path)
    requires pending' == pending + more
    ensures (done + multiset{d}) + pending' == (done + (multiset{d} + pending)) + more
  {
  }
}
