/** path_store.c as a whole: each operation tokenises, takes the store lock, works on the trie
    and the inode store, and returns with the lock free or, on some branches, still held. */
module PathStore {
  import opened Paths
  import opened Lists
  import opened InodeTable
  import opened InodeStore
  import opened Rounds
  import opened RoundFacts
  import opened RoundBounds
  import opened LowerFacts
  import opened Traversal
  import opened PathTrie
  import opened Tokenizer
  import opened Wrappers
  import opened Index
  import T = Trie

  /** How scheduling the refresh of the stamps ends.  The first is what the test with IS_ERR is
      for; an allocation that fails returns null, which passes the test, so it never shows. */
  datatype Schedule = AllocationError | ModuleGone | Queued

  /** How path_store_rm ends; the last two are the ends of a round that does not complete. */
  datatype RmResult = Returned(code: nat) | Hangs | Undefined

  class PathStore {
    const tree: PathTrie
    const inodes: InodeStore
    const argIdxs: array<nat>
    var writeLocked: bool   // store_lock held for writing between operations
    var readers: nat        // and for reading
    ghost var trace: Trace  // the operations so far

    /** The trie and the inode store are well formed, and slot 0 of argIdxs denotes the empty
        string for "/". */
    ghost predicate Sane()
      reads tree, tree.at.Values, inodes, argIdxs
    {
      && tree.Valid() && inodes.Valid()
      && argIdxs.Length == ARGS_SIZE && argIdxs[0] <= 1
    }

    /** The store is where its operations led, and whenever the lock is free for the next one the
        trie is canonical. */
    ghost predicate Valid()
      reads this, tree, tree.at.Values, inodes, argIdxs
    {
      match Contents()
      case State(trie, table, nonce) =>
        && Sane() && Sound(table, nonce) && (writeLocked || T.Canonical(trie))
        && Run(trace) && Last(trace) == State(trie, table, nonce)
    }

    ghost function Contents(): State
      reads tree, inodes
    {
      State(tree.view, inodes.table, inodes.nonce)
    }

    constructor ()
      ensures Valid() && Contents() == INITIAL && trace == Nil && !writeLocked && readers == 0
      ensures fresh(tree) && fresh(inodes) && fresh(argIdxs) && fresh(tree.at.Values)
    {
      tree := new PathTrie();
      inodes := new InodeStore();
      argIdxs := new nat[ARGS_SIZE](_ => 0);
      writeLocked, readers, trace := false, 0, Nil;
    }

    /** write_lock and write_unlock on store_lock. */
    method SetLock(held: bool)
      requires Sane()
      modifies this`writeLocked
      ensures Sane() && writeLocked == held
    {
      writeLocked := held;
      forall p | p in tree.at ensures tree.Represents(tree.view, p) {
        assert old(tree.Represents(tree.view, p));
      }
    }

    /** Notes an operation and the state it has led to. */
    ghost method Record(w: World, junk: Key -> nat, op: Op)
      requires Sane()
      modifies this`trace
      ensures Sane() && trace == Snoc(old(trace), Event(w, junk, op, Contents()))
    {
      trace := Snoc(trace, Event(w, junk, op, Contents()));
      forall p | p in tree.at ensures tree.Represents(tree.view, p) {
        assert old(tree.Represents(tree.view, p));
      }
    }

    /** read_lock and read_unlock on store_lock. */
    method SetReaders(count: nat)
      requires Sane()
      modifies this`readers
      ensures Sane() && readers == count
    {
      readers := count;
      forall p | p in tree.at ensures tree.Represents(tree.view, p) {
        assert old(tree.Represents(tree.view, p));
      }
    }

    /** process_path, and the tokens the searches then read through argIdxs. */
    method Tokenise(path: array<char>, ghost s: string) returns (accepted: bool, tokens: seq<string>)
      requires Cut(path[..], s, 0) && Sane()
      modifies path, argIdxs
      ensures Sane()
      ensures accepted <==> Accepts(s)
      ensures accepted ==> tokens == Tokens(s) && |tokens| <= ARGS_SIZE
      ensures accepted && tokens == [] ==> CStr(path[..], argIdxs[0]) == ""
    {
      var j := ProcessPath(path, argIdxs, s);
      accepted := j != UINT_MAX;
      tokens := [];
      if accepted {
        tokens := seq(j, k requires 0 <= k < j && j <= argIdxs.Length reads path, argIdxs => CStr(path[..], argIdxs[k]));
      }
      forall p | p in tree.at ensures tree.Represents(tree.view, p) {
        assert old(tree.Represents(tree.view, p));
      }
    }

    /** The start of an add or a removal: the tokens, and the lock if there are any to look up. */
    method Begin(path: array<char>, ghost s: string) returns (accepted: bool, tokens: seq<string>)
      requires Cut(path[..], s, 0) && Sane() && !writeLocked
      modifies path, argIdxs, this`writeLocked
      ensures Sane() && Contents() == old(Contents())
      ensures (accepted <==> Accepts(s)) && writeLocked == accepted
      ensures accepted ==> tokens == Tokens(s) && |tokens| <= ARGS_SIZE
      ensures accepted && tokens == [] ==> CStr(path[..], argIdxs[0]) == ""
    {
      accepted, tokens := Tokenise(path, s);
      SetLock(accepted);
    }

    /** path_store_add.  `resolved` is the dentry the oracle found for the path, if any; `s` is
        then its canonical name. */
    method Add(path: array<char>, ghost s: string, w: World, resolved: Option<Path>, junk: Key -> nat, schedule: Schedule)
      returns (r: nat)
      requires Valid() && !writeLocked && inodes.nonce < 0xFFFF_FFFF_FFFF_FFFF
      requires |tree.allocations| + 512 < 0x8000_0000_0000_0000
      requires Cut(path[..], s, 0) && w.WellFormed()
      requires match resolved
               case Some(d) => d in w.ino && d == PathOf(Tokens(s)) && (w.Narrow() || !Endless(w, d))
               case None => PathOf(Tokens(s)) !in w.ino
      modifies this`writeLocked, this`trace, path, argIdxs, tree, tree.at.Values, inodes
      ensures Valid()
      ensures r == if Accepts(s) && Named(PathOf(Tokens(s))) then 0 else 1
      ensures if Accepts(s) then trace == Snoc(old(trace), Event(w, junk, AddPath(PathOf(Tokens(s))), Contents()))
              else trace == old(trace)
      // the lock is left held by a path with an empty token, by every path that does not
      // resolve, and at the nonce limit unless the refresh cannot be allocated
      ensures writeLocked <==>
                (Accepts(s) && (r == 1 || resolved == None || (inodes.nonce == 0xFFFF_FFFF_FFFF_FFFF && schedule != AllocationError)))
    {
      var accepted, tokens := Begin(path, s);
      if !accepted {
        return 1;
      }
      var ok := Cover(tokens, CStr(path[..], argIdxs[0]), w, resolved, junk);
      Record(w, junk, AddPath(PathOf(tokens)));
      if ok && resolved.Some? && (inodes.nonce != ULLONG_MAX || schedule == AllocationError) {
        SetLock(false);
      }
      r := if ok then 0 else 1;
    }

    /** The trie half of an add, and the raising round if the path is resolved. */
    method Cover(tokens: seq<string>, stale: string, w: World, resolved: Option<Path>, junk: Key -> nat) returns (ok: bool)
      requires Sane() && Sound(inodes.table, inodes.nonce) && inodes.nonce < ULLONG_MAX
      requires |tree.allocations| + |tokens| < EXPLICITED_PATH_MASK && (tokens == [] ==> stale == "")
      requires w.WellFormed()
      requires match resolved
               case Some(d) => d in w.ino && d == PathOf(tokens) && (w.Narrow() || !Endless(w, d))
               case None => PathOf(tokens) !in w.ino
      modifies tree, tree.at.Values, inodes
      ensures Sane() && Sound(inodes.table, inodes.nonce)
      ensures ok <==> Named(PathOf(tokens))
      ensures Step(w, junk, old(Contents()), AddPath(PathOf(tokens)), Contents())
      ensures ok && T.Canonical(old(tree.view)) ==> T.Canonical(tree.view)
    {
      T.GrowRefines(tree.view, PathOf(tokens));
      if Named(PathOf(tokens)) {
        T.AddRefines(tree.view, PathOf(tokens));
      }
      ok := tree.AddPath(tokens, stale);
      if resolved.Some? {
        WorldNamed(w, resolved.value);
        Raise(w, resolved.value, junk);
      }
    }

    /** nonce++ and store_iterate_add */
    method Raise(w: World, root: Path, junk: Key -> nat)
      requires Sane() && Sound(inodes.table, inodes.nonce) && w.WellFormed() && root in w.ino
      requires w.Narrow() || !Endless(w, root)
      modifies inodes
      ensures Sane() && Sound(inodes.table, inodes.nonce) && inodes.nonce == old(inodes.nonce) + 1
      ensures Ends(Round(Mode.Raise, w, old(inodes.table), inodes.nonce, junk), root, inodes.table)
      // so a removal right afterwards completes
      ensures DirsUnique(w) && w.Narrow() ==> !Misses(w, root, inodes.table)
    {
      if w.Narrow() {
        NarrowEnds(w, root);
      }
      ghost var before := inodes.table;
      inodes.nonce := inodes.nonce + 1;
      ghost var r := Round(Mode.Raise, w, before, inodes.nonce, junk);
      SoundStarts(r);
      var seen, held, expanded := IterateAdd(inodes, w, root, junk, r);
      assert Done(r, root, expanded, inodes.table);
      SoundAfter(r, w.Met(root, expanded));
      if DirsUnique(w) && w.Narrow() {
        RaisedMissesNothing(r, root, expanded, inodes.table);
      }
      forall p | p in tree.at ensures tree.Represents(tree.view, p) {
        assert old(tree.Represents(tree.view, p));
      }
    }

    /** path_store_rm */
    method Remove(path: array<char>, ghost s: string, w: World, resolved: Option<Path>, ghost junk: Key -> nat, schedule: Schedule)
      returns (r: RmResult)
      requires Valid() && !writeLocked && inodes.nonce < 0xFFFF_FFFF_FFFF_FFFF
      requires Cut(path[..], s, 0) && w.WellFormed()
      requires match resolved case Some(d) => d in w.ino && d == PathOf(Tokens(s)) case None => PathOf(Tokens(s)) !in w.ino
      modifies this`writeLocked, this`trace, path, argIdxs, tree, tree.at.Values, inodes
      ensures r.Returned? ==> Valid()
      ensures r.Returned? ==> r.code == if Accepts(s) && PathOf(Tokens(s)) in old(tree.view).explicit then 0 else 1
      ensures r.Returned? ==>
                if Accepts(s) then trace == Snoc(old(trace), Event(w, junk, RmPath(PathOf(Tokens(s))), Contents()))
                else trace == old(trace)
      ensures r.Returned? ==>
                (writeLocked <==> r.code == 0 && inodes.nonce == 0xFFFF_FFFF_FFFF_FFFF && schedule != AllocationError)
      ensures !r.Returned? ==>
                writeLocked && Accepts(s) && resolved.Some? && PathOf(Tokens(s)) in old(tree.view).explicit
      // it hangs exactly if the round has something to miss
      ensures Accepts(s) && resolved.Some? && PathOf(Tokens(s)) in old(tree.view).explicit ==>
                RmEnd(w, PathOf(Tokens(s)), old(inodes.table), r == Hangs, r == Undefined)
    {
      var accepted, tokens := Begin(path, s);
      r := Returned(1);
      if accepted {
        var found, status := Withdraw(tokens, CStr(path[..], argIdxs[0]), w, resolved, junk);
        if status == Completed && (!found || inodes.nonce != ULLONG_MAX || schedule == AllocationError) {
          SetLock(false);
        }
        r := RmResultOf(found, status);
      }
    }

    function RmResultOf(found: bool, status: RmStatus): RmResult {
      match status
      case Completed => Returned(if found then 0 else 1)
      case FreedEntry => Undefined
      case _ => Hangs
    }

    /** The part of a removal under the lock, noted unless its round does not complete. */
    method Withdraw(tokens: seq<string>, stale: string, w: World, resolved: Option<Path>, ghost junk: Key -> nat)
      returns (found: bool, status: RmStatus)
      requires Sane() && Sound(inodes.table, inodes.nonce) && inodes.nonce < ULLONG_MAX
      requires Run(trace) && Last(trace) == Contents()
      requires w.WellFormed() && (tokens == [] ==> stale == "")
      requires match resolved case Some(d) => d in w.ino && d == PathOf(tokens) case None => PathOf(tokens) !in w.ino
      modifies this`trace, tree, tree.at.Values, inodes
      ensures found <==> PathOf(tokens) in old(tree.view).explicit
      ensures !found ==> status == Completed && inodes.nonce == old(inodes.nonce)
      ensures status == Completed ==>
                && Sane() && Sound(inodes.table, inodes.nonce) && Run(trace) && Last(trace) == Contents()
                && trace == Snoc(old(trace), Event(w, junk, RmPath(PathOf(tokens)), Contents()))
                && (T.Canonical(old(tree.view)) ==> T.Canonical(tree.view))
      ensures status != AlreadySeen && (resolved == None ==> status == Completed)
      ensures found && resolved.Some? ==>
                RmEnd(w, PathOf(tokens), old(inodes.table), status == NeverReturns, status == FreedEntry)
    {
      var cur := tree.FindExplicit(tokens, stale);
      found, status := cur != null, Completed;
      if cur != null {
        status := Uncover(cur, PathOf(tokens), w, resolved, junk);
      }
      if status == Completed {
        Record(w, junk, RmPath(PathOf(tokens)));
      }
    }

    /** How a lowering round from `root` over table `t` ends otherwise than by completing. */
    ghost predicate RmEnd(w: World, root: Path, t: Table, hangs: bool, undefined: bool) {
      && (root !in w.link && DirsUnique(w) ==> (hangs <==> Misses(w, root, t)))
      && (root in w.link && root in w.ino ==> (hangs <==> w.ino[root] !in t.entries && w.ino[root].device in t.devices))
      && (undefined <==> root in w.link && w.link[root].Some? && !hangs)
    }

    /** Under index agreement on a tree a removal always returns. */
    lemma AgreementReturns(w: World, explicit: set<Path>, root: Path, t: Table, hangs: bool, undefined: bool)
      requires Tree(w) && Agrees(w, explicit, t) && root in explicit && RmEnd(w, root, t, hangs, undefined)
      ensures !hangs && !undefined
    {
      forall d | d in w.ino && Above(root, d) ensures w.ino[d] in t.entries && !Shared(w, root, d) {
        CountedBelow(w, explicit, t, root, d);
      }
    }

    /** The lowering round of a resolved path, and then its removal from the trie. */
    method Uncover(cur: StoreEntry, ghost p: Path, w: World, resolved: Option<Path>, ghost junk: Key -> nat)
      returns (status: RmStatus)
      requires Sane() && Sound(inodes.table, inodes.nonce) && w.WellFormed() && inodes.nonce < ULLONG_MAX
      requires p in tree.at && tree.at[p] == cur && p in tree.view.explicit
      requires match resolved case Some(d) => d in w.ino && d == p case None => p !in w.ino
      modifies tree, tree.at.Values, inodes
      ensures status == Completed ==>
                && Sane() && Sound(inodes.table, inodes.nonce)
                && Step(w, junk, old(Contents()), RmPath(p), Contents())
                && (T.Canonical(old(tree.view)) ==> T.Canonical(tree.view))
      ensures status != AlreadySeen && (resolved == None ==> status == Completed)
      ensures resolved.Some? ==> RmEnd(w, p, old(inodes.table), status == NeverReturns, status == FreedEntry)
    {
      CanonicalAfter(tree.view, p);
      status := Completed;
      if resolved.Some? {
        status := Lower(w, resolved.value, junk);
      }
      if status == Completed {
        tree.Delete(cur, p);
      }
    }

    lemma CanonicalAfter(t: T.Trie, p: Path)
      requires T.WellFormed(t)
      ensures T.Canonical(t) ==> T.Canonical(T.Remove(t, p).0)
    {
      if T.Canonical(t) {
        T.RemoveRefines(t, p);
      }
    }

    /** nonce++ and store_iterate_rm */
    method Lower(w: World, root: Path, ghost junk: Key -> nat) returns (status: RmStatus)
      requires Sane() && Sound(inodes.table, inodes.nonce) && w.WellFormed() && root in w.ino
      modifies inodes
      ensures Sane() && inodes.nonce == old(inodes.nonce) + 1 && status != AlreadySeen
      ensures status == Completed ==>
                && Sound(inodes.table, inodes.nonce)
                && Ends(Round(Mode.Lower, w, old(inodes.table), inodes.nonce, junk), root, inodes.table)
      ensures RmEnd(w, root, old(inodes.table), status == NeverReturns, status == FreedEntry)
    {
      ghost var before := inodes.table;
      inodes.nonce := inodes.nonce + 1;
      ghost var r := Round(Mode.Lower, w, before, inodes.nonce, junk);
      SoundStarts(r);
      var held;
      ghost var expanded;
      status, held, expanded := IterateRm(inodes, w, root, r);
      assert status == Completed ==> Done(r, root, expanded, inodes.table);
      SoundAfter(r, w.Met(root, expanded));
      forall p | p in tree.at ensures tree.Represents(tree.view, p) {
        assert old(tree.Represents(tree.view, p));
      }
    }

    /** refresh_nonces, run later by the worker with the store still locked: it restarts the
        stamps and never unlocks. */
    method RefreshStamps(ghost w: World, ghost junk: Key -> nat)
      requires Valid()
      modifies inodes, this`trace
      ensures Valid() && inodes.nonce == 0 && writeLocked == old(writeLocked)
      ensures trace == Snoc(old(trace), Event(w, junk, Op.RefreshStamps, Contents()))
    {
      inodes.RefreshNonces();
      trace := Snoc(trace, Event(w, junk, Op.RefreshStamps, Contents()));
      forall p | p in tree.at ensures tree.Represents(tree.view, p) {
        assert old(tree.Represents(tree.view, p));
      }
    }

    /** Where a search that stopped at `deepness` stands. */
    lemma SearchIsDeepest(tokens: seq<string>, cur: StoreEntry, deepness: nat)
      requires tree.Valid() && tree.Stuck(tokens, cur, deepness)
      ensures T.Deepest(tree.view, PathOf(tokens)) == PathAt(tokens, deepness)
      ensures PathAt(tokens, deepness) == PathOf(tokens) <==> deepness == |tokens|
      ensures cur == tree.root <==> PathAt(tokens, deepness).Root?
    {
      if deepness < |tokens| {
        PathAtAbove(tokens, deepness + 1, |tokens|);
        T.DeepestAt(tree.view, PathAt(tokens, deepness), tokens[deepness], PathOf(tokens));
      }
      PathAtDepth(tokens, deepness);
      PathAtDepth(tokens, |tokens|);
      assert tree.at[Root].path == Root && tree.at[PathAt(tokens, deepness)].path == PathAt(tokens, deepness);
    }

    /** The search of path_store_check and the answer it gives. */
    method Classify(tokens: seq<string>, stale: string) returns (r: T.CheckResult)
      requires tree.Valid() && T.Canonical(tree.view) && (tokens == [] ==> stale == "")
      ensures T.Answers(tree.view.explicit, PathOf(tokens), r) && r != T.MatchInode
    {
      var cur, deepness := tree.Search(tree.root, 0, tokens, stale);
      ghost var m := PathAt(tokens, deepness);
      assert tree.Represents(tree.view, m);
      SearchIsDeepest(tokens, cur, deepness);
      T.CheckRefines(tree.view, PathOf(tokens));
      r := T.Verdict(cur == tree.root, cur.children == [], deepness == |tokens|);
    }

    /** On a steady tree without re-adds the table knows exactly the inodes that some explicit
        path covers. */
    lemma KnowsTheCovered(w: World, d: Path)
      requires Valid() && Tree(w) && Steady(w, trace) && NeverReAdds(trace) && d in w.ino
      ensures w.ino[d] in inodes.table.entries <==> exists e :: e in tree.view.explicit && Above(e, d)
    {
      RunAgrees(w, trace);
    }

    /** path_store_check */
    method Check(path: array<char>, ghost s: string, resolved: Option<Key>) returns (r: T.CheckResult)
      requires Valid() && !writeLocked && Cut(path[..], s, 0)
      modifies this`readers, path, argIdxs
      ensures Valid() && readers == old(readers) && Contents() == old(Contents())
      ensures r == T.MatchInode <==> resolved.Some? && resolved.value in inodes.table.entries
      ensures r != T.MatchInode && !Accepts(s) ==> r == T.FullMatchLeaf
      ensures r != T.MatchInode && Accepts(s) ==> T.Answers(tree.view.explicit, PathOf(Tokens(s)), r)
    {
      if resolved.Some? {
        var matched := inodes.CheckInode(resolved.value.device, resolved.value.inode);
        if matched {
          return T.MatchInode;
        }
      }
      r := CheckPath(path, s);
    }

    /** The check of a path whose inode is not counted. */
    method CheckPath(path: array<char>, ghost s: string) returns (r: T.CheckResult)
      requires Sane() && T.Canonical(tree.view) && Cut(path[..], s, 0)
      modifies this`readers, path, argIdxs
      ensures Sane() && readers == old(readers) && Contents() == old(Contents()) && r != T.MatchInode
      ensures !Accepts(s) ==> r == T.FullMatchLeaf
      ensures Accepts(s) ==> T.Answers(tree.view.explicit, PathOf(Tokens(s)), r)
    {
      var accepted, tokens := Tokenise(path, s);
      if !accepted {
        return T.FullMatchLeaf;
      }
      SetReaders(readers + 1);
      r := Classify(tokens, CStr(path[..], argIdxs[0]));
      SetReaders(readers - 1);
    }
  }
}
