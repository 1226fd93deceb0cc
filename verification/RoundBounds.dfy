/** When a raising round ends.  An inode number of 2^32 or more is never found in the table, so
    its dentries are expanded at every encounter: the expansions of a round are bounded exactly
    when no cycle of such dentries is reachable from its root. */
module RoundBounds {
  import opened Paths
  import opened Lists
  import opened InodeTable
  import opened Rounds
  import opened RoundFacts
  import opened Entrances

  function Length(l: List<Path>): nat {
    match l
    case Nil => 0
    case Snoc(init, _) => Length(init) + 1
  }

  /** The inode of `d` does not fit the 32-bit num. */
  predicate Wide(w: World, d: Path) {
    w.Of(d).inode >= UINT_LIMIT
  }

  ghost predicate Reachable(w: World, root: Path, d: Path) {
    exists walk :: Walk(w, root, walk) && walk.last == d
  }

  lemma ReachableNext(w: World, root: Path, e: Path, d: Path)
    requires Reachable(w, root, e) && d in Bag(w.Next(e))
    ensures Reachable(w, root, d)
  {
    var walk :| Walk(w, root, walk) && walk.last == e;
    assert Walk(w, root, Snoc(walk, d)) && Snoc(walk, d).last == d;
  }

  /** A closed walk over wide dentries. */
  ghost predicate WideLoop(w: World, c: Path, loop: List<Path>) {
    && Walk(w, c, loop) && loop.init.Snoc? && loop.last == c
    && forall d :: d in Bag(loop) ==> Wide(w, d)
  }

  ghost predicate Endless(w: World, root: Path) {
    exists c, loop :: Reachable(w, root, c) && WideLoop(w, c, loop)
  }

  lemma NarrowEnds(w: World, root: Path)
    requires w.Narrow()
    ensures !Endless(w, root)
  {
    forall c, loop ensures !WideLoop(w, c, loop) {
      if loop.Snoc? {
        assert loop.last in Bag(loop);
      }
    }
  }

  // ---------------------------------------------------------------- a reachable cycle never ends

  /** A wide inode is expanded at least as often as any inode that leads to it. */
  lemma GrowsStep(r: Round, root: Path, expanded: List<Path>, e: Path, d: Path)
    requires Finished(r, root, expanded) && Wide(r.world, d) && e in r.world.ino && d in Bag(r.world.Next(e))
    ensures d in r.world.ino && Occ(r.world, expanded, r.world.Of(e)) <= Occ(r.world, expanded, r.world.Of(d))
  {
    var w, k := r.world, r.world.Of(d);
    w.NextIn(e, d);
    OccIn(w, w.Next(e), k);
    LeadsAll(w, e, k);
    forall x | x in Bag(expanded) ensures x in w.ino {
      ExpandedIn(r, root, expanded, x);
    }
    Entered(w, root, expanded, w.Of(e), k);
    KeyExpansions(r, root, expanded, k);
  }

  /** Along wide dentries the expansions do not decrease. */
  lemma {:induction false} Grows(r: Round, root: Path, expanded: List<Path>, c: Path, walk: List<Path>)
    requires Finished(r, root, expanded) && c in r.world.ino && Walk(r.world, c, walk)
    requires forall d :: d in Bag(walk) ==> Wide(r.world, d)
    ensures walk.last in r.world.ino
    ensures forall d :: d in Bag(walk) ==>
              Occ(r.world, expanded, r.world.Of(c)) <= Occ(r.world, expanded, r.world.Of(d))
              <= Occ(r.world, expanded, r.world.Of(walk.last))
  {
    if walk.init.Snoc? {
      assert forall d :: d in Bag(walk.init) ==> d in Bag(walk);
      Grows(r, root, expanded, c, walk.init);
      assert walk.init.last in Bag(walk.init) && walk.last in Bag(walk);
      GrowsStep(r, root, expanded, walk.init.last, walk.last);
    }
  }

  /** Every dentry of a closed walk follows another one of it. */
  lemma {:induction false} Before(w: World, c: Path, walk: List<Path>, d: Path) returns (e: Path)
    requires Walk(w, c, walk) && d in Bag(walk) && (d == c ==> walk.init.Snoc? && walk.last == c)
    ensures e in Bag(walk) && d in Bag(w.Next(e))
  {
    if walk.last == d {
      e := walk.init.last;
      assert e in Bag(walk.init);
    } else {
      e := Before(w, c, walk.init, d);
    }
  }

  /** In a loop every inode is expanded once per encounter, and all equally often. */
  lemma LoopEven(r: Round, root: Path, expanded: List<Path>, c: Path, loop: List<Path>, d: Path) returns (e: Path)
    requires Finished(r, root, expanded) && c in r.world.ino && WideLoop(r.world, c, loop) && d in Bag(loop)
    ensures e in Bag(loop) && e in r.world.ino && Occ(r.world, r.world.Next(e), r.world.Of(d)) > 0
    ensures Occ(r.world, expanded, r.world.Of(e)) == Occ(r.world, r.world.Met(root, expanded), r.world.Of(d))
  {
    Grows(r, root, expanded, c, loop);
    WalkIn(r.world, c, loop);
    e := Before(r.world, c, loop, d);
    OccIn(r.world, r.world.Next(e), r.world.Of(d));
    KeyExpansions(r, root, expanded, r.world.Of(d));
  }

  /** Whoever enters a wide loop would have to expand it once more than it was expanded. */
  lemma {:induction false} NoWayIn(r: Round, root: Path, expanded: List<Path>, c: Path, loop: List<Path>,
                                   walk: List<Path>, d: Path)
    requires Finished(r, root, expanded) && c in r.world.ino && WideLoop(r.world, c, loop)
    requires Walk(r.world, root, walk) && d in Bag(loop) && r.world.Of(walk.last) == r.world.Of(d)
    ensures false
  {
    var w, k := r.world, r.world.Of(d);
    var e := LoopEven(r, root, expanded, c, loop, d);
    forall x | x in Bag(expanded) ensures x in w.ino {
      ExpandedIn(r, root, expanded, x);
    }
    LeadsAll(w, e, k);
    if walk.init.Nil? {
      Entered(w, root, expanded, w.Of(e), k);
    } else {
      var u := walk.init.last;
      WalkStep(w, root, walk);
      if w.Of(u) == w.Of(e) {
        NoWayIn(r, root, expanded, c, loop, walk.init, e);
      } else {
        LeadsAll(w, u, k);
        ReachedExpanded(r, root, expanded, w.Of(u));
        EnteredTwice(w, root, expanded, w.Of(u), w.Of(e), k);
      }
    }
  }

  /** With a wide loop in reach no raising round is ever finished. */
  lemma DoneIsNotEndless(r: Round, root: Path, expanded: List<Path>)
    requires Finished(r, root, expanded)
    ensures !Endless(r.world, root)
  {
    if Endless(r.world, root) {
      var c, loop :| Reachable(r.world, root, c) && WideLoop(r.world, c, loop);
      var walk :| Walk(r.world, root, walk) && walk.last == c;
      WalkIn(r.world, root, walk);
      assert walk.last in Bag(walk) && loop.last in Bag(loop);
      NoWayIn(r, root, expanded, c, loop, walk, c);
    }
  }

  // ---------------------------------------------------------------- sums over dentries

  /** `a` times `n`, by repeated addition. */
  function Times(a: nat, n: nat): nat {
    if n == 0 then 0 else Times(a, n - 1) + a
  }

  lemma {:induction false} Monotone(a: nat, b: nat, c: nat)
    requires b <= c
    ensures Times(a, b) <= Times(a, c)
  {
    if b < c {
      Monotone(a, b, c - 1);
    }
  }

  ghost function Sum(s: set<Path>, m: multiset<Path>): nat {
    if s == {} then 0 else var d :| d in s; m[d] + Sum(s - {d}, m)
  }

  lemma {:induction false} SumPull(s: set<Path>, m: multiset<Path>, d: Path)
    requires d in s
    ensures Sum(s, m) == m[d] + Sum(s - {d}, m)
  {
    var e :| e in s && Sum(s, m) == m[e] + Sum(s - {e}, m);
    if e != d {
      SumPull(s - {e}, m, d);
      SumPull(s - {d}, m, e);
      assert s - {e} - {d} == s - {d} - {e};
    }
  }

  lemma {:induction false} SumAtMost(s: set<Path>, m: multiset<Path>, n: multiset<Path>)
    requires forall d :: d in s ==> m[d] <= n[d]
    ensures Sum(s, m) <= Sum(s, n)
  {
    if s != {} {
      var d :| d in s;
      SumPull(s, m, d);
      SumPull(s, n, d);
      SumAtMost(s - {d}, m, n);
    }
  }

  lemma {:induction false} SumBound(s: set<Path>, m: multiset<Path>, bound: nat)
    requires forall d :: d in s ==> m[d] <= bound
    ensures Sum(s, m) <= Times(bound, |s|)
  {
    if s != {} {
      var d :| d in s;
      SumPull(s, m, d);
      SumBound(s - {d}, m, bound);
      assert |s - {d}| == |s| - 1;
    }
  }

  lemma {:induction false} SumApart(s: set<Path>, t: set<Path>, m: multiset<Path>)
    requires s !! t
    ensures Sum(s + t, m) == Sum(s, m) + Sum(t, m)
  {
    if s == {} {
      assert s + t == t;
    } else {
      var d :| d in s;
      SumPull(s, m, d);
      SumPull(s + t, m, d);
      assert s + t - {d} == (s - {d}) + t;
      SumApart(s - {d}, t, m);
    }
  }

  lemma {:induction false} SumMore(s: set<Path>, m: multiset<Path>, d: Path)
    ensures Sum(s, m + multiset{d}) == Sum(s, m) + One(d in s)
  {
    if s != {} {
      var e :| e in s;
      SumPull(s, m, e);
      SumPull(s, m + multiset{d}, e);
      SumMore(s - {e}, m, d);
    }
  }

  lemma {:induction false} SumNone(s: set<Path>)
    ensures Sum(s, multiset{}) == 0
  {
    if s != {} {
      var d :| d in s;
      SumPull(s, multiset{}, d);
      SumNone(s - {d});
    }
  }

  /** A sum over a list counts its elements in the set. */
  lemma {:induction false} SumLength(s: set<Path>, l: List<Path>)
    ensures Sum(s, Bag(l)) <= Length(l)
    ensures (forall d :: d in Bag(l) ==> d in s) ==> Sum(s, Bag(l)) == Length(l)
    ensures (forall d :: d in Bag(l) ==> d !in s) ==> Sum(s, Bag(l)) == 0
  {
    if l.Nil? {
      SumNone(s);
    } else {
      SumLength(s, l.init);
      SumMore(s, Bag(l.init), l.last);
      assert l.last in Bag(l) && forall d :: d in Bag(l.init) ==> d in Bag(l);
    }
  }

  lemma {:induction false} SumAppend(s: set<Path>, a: List<Path>, b: List<Path>)
    ensures Sum(s, Bag(Append(a, b))) == Sum(s, Bag(a)) + Sum(s, Bag(b))
  {
    if b.Nil? {
      SumNone(s);
    } else {
      SumAppend(s, a, b.init);
      SumMore(s, Bag(Append(a, b.init)), b.last);
      SumMore(s, Bag(b.init), b.last);
    }
  }

  // ---------------------------------------------------------------- levels of the graph

  /** A chain of `n + 1` wide dentries ends at `d`. */
  ghost predicate Deep(w: World, root: Path, d: Path, n: nat)
    decreases n
  {
    && d in w.ino && Reachable(w, root, d) && Wide(w, d)
    && (n > 0 ==> exists e :: d in Bag(w.Next(e)) && Deep(w, root, e, n - 1))
  }

  ghost function Territory(w: World, root: Path): set<Path> {
    set d | d in w.ino && Reachable(w, root, d)
  }

  /** The reachable dentries at which only shorter chains end. */
  ghost function Level(w: World, root: Path, n: nat): set<Path> {
    set d | d in w.ino && Reachable(w, root, d) && !Deep(w, root, d, n)
  }

  /** Chains as long as the territory is large run in a loop. */
  lemma {:induction false} Chain(w: World, root: Path, d: Path, n: nat) returns (c: Path, walk: List<Path>)
    requires Deep(w, root, d, n)
    ensures Walk(w, c, walk) && walk.last == d && Length(walk) == n + 1
    ensures forall e :: e in Bag(walk) ==> e in Territory(w, root) && Wide(w, e)
    decreases n
  {
    if n == 0 {
      c, walk := d, Snoc(Nil, d);
    } else {
      var e :| d in Bag(w.Next(e)) && Deep(w, root, e, n - 1);
      c, walk := Chain(w, root, e, n - 1);
      walk := Snoc(walk, d);
    }
  }

  lemma {:induction false} Repeats(l: List<Path>, s: set<Path>) returns (d: Path)
    requires (forall e :: e in Bag(l) ==> e in s) && Length(l) > |s|
    ensures Bag(l)[d] >= 2
  {
    if l.last in Bag(l.init) {
      d := l.last;
    } else {
      assert l.last in Bag(l) && forall e :: e in Bag(l.init) ==> e in Bag(l);
      assert |s - {l.last}| == |s| - 1;
      d := Repeats(l.init, s - {l.last});
    }
  }

  /** The part of a walk from its latest `d` on. */
  lemma {:induction false} Suffix(w: World, c: Path, walk: List<Path>, d: Path) returns (rest: List<Path>)
    requires Walk(w, c, walk) && d in Bag(walk)
    ensures Walk(w, d, rest) && rest.last == walk.last
    ensures forall e :: e in Bag(rest) ==> e in Bag(walk)
  {
    if walk.last == d {
      rest := Snoc(Nil, d);
    } else {
      rest := Suffix(w, c, walk.init, d);
      rest := Snoc(rest, walk.last);
    }
  }

  lemma {:induction false} Closed(w: World, c: Path, walk: List<Path>, d: Path) returns (loop: List<Path>)
    requires Walk(w, c, walk) && Bag(walk)[d] >= 2
    ensures Walk(w, d, loop) && loop.init.Snoc? && loop.last == d
    ensures forall e :: e in Bag(loop) ==> e in Bag(walk)
  {
    if walk.last == d {
      loop := Suffix(w, c, walk.init, d);
      loop := Snoc(loop, d);
    } else {
      loop := Closed(w, c, walk.init, d);
    }
  }

  lemma DeepIsEndless(w: World, root: Path, d: Path, n: nat)
    requires Deep(w, root, d, n) && n >= |Territory(w, root)|
    ensures Endless(w, root)
  {
    var c, walk := Chain(w, root, d, n);
    var e := Repeats(walk, Territory(w, root));
    var loop := Closed(w, c, walk, e);
    assert e in Bag(walk);
    assert WideLoop(w, e, loop);
  }

  // ---------------------------------------------------------------- without one the round is bounded

  /** A raising round under way. */
  ghost predicate Raising(r: Round, root: Path, expanded: List<Path>) {
    && r.mode == Raise && r.world.WellFormed() && root in r.world.ino
    && r.world.Ordered(root, expanded) && Bag(expanded) <= Bag(r.Pushed(r.world.Met(root, expanded)))
  }

  lemma {:induction false} BagOcc(w: World, l: List<Path>, d: Path)
    ensures Bag(l)[d] <= Occ(w, l, w.Of(d))
  {
    if l.Snoc? {
      BagOcc(w, l.init, d);
    }
  }

  lemma TerritoryHolds(r: Round, root: Path, expanded: List<Path>, d: Path)
    requires Raising(r, root, expanded) && d in Bag(expanded)
    ensures d in Territory(r.world, root)
  {
    r.PushedWereMet(r.world.Met(root, expanded));
    r.MetIn(root, expanded, d);
    var walk := MetIsWalk(r.world, root, expanded, d);
  }

  /** How often `k` can still be counted. */
  function Left(t: Table, nonce: nat, k: Key): nat {
    if k !in t.entries then 2 else if t.entries[k].stamp < nonce then 1 else 0
  }

  /** Whatever the stamps, a number that fits is expanded twice at most. */
  lemma {:induction false} NarrowTwice(r: Round, met: List<Path>, k: Key)
    requires r.mode == Raise && k.inode < UINT_LIMIT
    ensures Occ(r.world, r.Pushed(met), k) + Left(r.After(met), r.nonce, k) <= 2
  {
    if met.Snoc? {
      NarrowTwice(r, met.init, k);
    }
  }

  lemma FewNarrow(r: Round, root: Path, expanded: List<Path>)
    requires Raising(r, root, expanded)
    ensures Sum(Level(r.world, root, 0), Bag(expanded)) <= Times(2, |Territory(r.world, root)|)
  {
    var w, met, level := r.world, r.world.Met(root, expanded), Level(r.world, root, 0);
    forall d | d in level ensures Bag(expanded)[d] <= 2 {
      BagOcc(w, r.Pushed(met), d);
      NarrowTwice(r, met, w.Of(d));
    }
    SumBound(level, Bag(expanded), 2);
    SetSize(level, Territory(w, root));
    Monotone(2, |level|, |Territory(w, root)|);
  }

  lemma {:induction false} SetSize(s: set<Path>, t: set<Path>)
    requires s <= t
    ensures |s| <= |t|
  {
    if s != {} {
      var d :| d in s;
      SetSize(s - {d}, t - {d});
    }
  }

  /** An expansion of `e` meets dentries of `wide` only if `e` is in `level`, and `most` at most. */
  ghost predicate Through(w: World, e: Path, wide: set<Path>, level: set<Path>, most: nat) {
    Length(w.Next(e)) <= most && (e in level || forall d :: d in Bag(w.Next(e)) ==> d !in wide)
  }

  lemma MetMore(w: World, root: Path, init: List<Path>, e: Path, wide: set<Path>, level: set<Path>, most: nat)
    requires Through(w, e, wide, level, most)
    ensures Sum(wide, Bag(w.Met(root, Snoc(init, e)))) <=
            Sum(wide, Bag(w.Met(root, init))) + if e in level then most else 0
  {
    SumAppend(wide, w.Met(root, init), w.Next(e));
    SumLength(wide, w.Next(e));
  }

  /** The dentries of `wide` are met through expansions of `level` only. */
  lemma {:induction false} MetThrough(w: World, root: Path, expanded: List<Path>, wide: set<Path>, level: set<Path>, most: nat)
    requires forall e :: e in Bag(expanded) ==> Through(w, e, wide, level, most)
    ensures Sum(wide, Bag(w.Met(root, expanded))) <= 1 + Times(most, Sum(level, Bag(expanded)))
  {
    match expanded
    case Nil =>
      SumLength(wide, Snoc(Nil, root));
      SumNone(level);
    case Snoc(init, e) =>
      assert e in Bag(expanded) && forall x :: x in Bag(init) ==> x in Bag(expanded);
      MetThrough(w, root, init, wide, level, most);
      MetMore(w, root, init, e, wide, level, most);
      SumMore(level, Bag(init), e);
  }

  function Bound(n: nat, territory: nat, most: nat): nat {
    if n == 0 then Times(2, territory)
    else Times(2, territory) + 1 + Times(most, Bound(n - 1, territory, most))
  }

  /** The wide dentries of a level are met through expansions of the level below. */
  lemma WideBound(r: Round, root: Path, expanded: List<Path>, n: nat, wide: set<Path>, most: nat)
    requires Raising(r, root, expanded) && n > 0
    requires forall e :: e in r.world.ino ==> Length(r.world.Next(e)) <= most
    requires wide == Level(r.world, root, n) - Level(r.world, root, 0)
    ensures Sum(wide, Bag(expanded)) <= 1 + Times(most, Sum(Level(r.world, root, n - 1), Bag(expanded)))
  {
    var w := r.world;
    forall e | e in Bag(expanded) ensures e in Territory(w, root) {
      TerritoryHolds(r, root, expanded, e);
    }
    forall e | e in Bag(expanded) ensures Through(w, e, wide, Level(w, root, n - 1), most) {
      forall d | d in Bag(w.Next(e)) && d in wide ensures e in Level(w, root, n - 1) {
        assert Wide(w, d);
      }
    }
    MetThrough(w, root, expanded, wide, Level(w, root, n - 1), most);
    r.PushedWereMet(w.Met(root, expanded));
    SumAtMost(wide, Bag(expanded), Bag(w.Met(root, expanded)));
  }

  lemma {:induction false} LevelBound(r: Round, root: Path, expanded: List<Path>, n: nat, most: nat)
    requires Raising(r, root, expanded)
    requires forall e :: e in r.world.ino ==> Length(r.world.Next(e)) <= most
    ensures Sum(Level(r.world, root, n), Bag(expanded)) <= Bound(n, |Territory(r.world, root)|, most)
  {
    FewNarrow(r, root, expanded);
    if n > 0 {
      var w, m := r.world, Bag(expanded);
      var narrow, level, below := Level(w, root, 0), Level(w, root, n), Level(w, root, n - 1);
      LevelBound(r, root, expanded, n - 1, most);
      WideBound(r, root, expanded, n, level - narrow, most);
      SumSplit(level, narrow, m);
      Combine(n, |Territory(w, root)|, most, Sum(narrow, m), Sum(level - narrow, m), Sum(below, m));
    }
  }

  lemma Combine(n: nat, territory: nat, most: nat, narrow: nat, wide: nat, below: nat)
    requires n > 0 && narrow <= Times(2, territory) && wide <= 1 + Times(most, below) && below <= Bound(n - 1, territory, most)
    ensures narrow + wide <= Bound(n, territory, most)
  {
    Monotone(most, below, Bound(n - 1, territory, most));
  }

  lemma SumSplit(s: set<Path>, t: set<Path>, m: multiset<Path>)
    ensures Sum(s, m) <= Sum(t, m) + Sum(s - t, m)
  {
    SumApart(t, s - t, m);
    SumWithin(s, t + (s - t), m);
  }

  lemma SumWithin(s: set<Path>, t: set<Path>, m: multiset<Path>)
    requires s <= t
    ensures Sum(s, m) <= Sum(t, m)
  {
    SumApart(s, t - s, m);
    assert s + (t - s) == t;
  }

  lemma {:induction false} MostNext(w: World, s: set<Path>) returns (most: nat)
    ensures forall e :: e in s ==> Length(w.Next(e)) <= most
  {
    if s == {} {
      most := 0;
    } else {
      var e :| e in s;
      most := MostNext(w, s - {e});
      most := most + Length(w.Next(e));
    }
  }

  /** No trace of the round has more than `bound` expansions. */
  ghost predicate Bounded(r: Round, root: Path, bound: nat) {
    forall pending, expanded :: r.Tracks(root, pending, expanded) ==> Length(expanded) <= bound
  }

  lemma RoundBound(r: Round, root: Path) returns (bound: nat)
    requires r.mode == Raise && r.world.WellFormed() && root in r.world.ino
    requires !Endless(r.world, root)
    ensures Bounded(r, root, bound)
  {
    var w := r.world;
    var territory := Territory(w, root);
    var most := MostNext(w, w.ino.Keys);
    bound := Bound(|territory|, |territory|, most);
    forall pending, expanded | r.Tracks(root, pending, expanded) ensures Length(expanded) <= bound {
      LevelBound(r, root, expanded, |territory|, most);
      forall e | e in Bag(expanded) ensures e in Level(w, root, |territory|) {
        TerritoryHolds(r, root, expanded, e);
        if Deep(w, root, e, |territory|) {
          DeepIsEndless(w, root, e, |territory|);
        }
      }
      SumLength(Level(w, root, |territory|), expanded);
    }
  }

  // ---------------------------------------------------------------- with one it is not

  lemma {:induction false} PushedBy(r: Round, met: List<Path>, next: List<Path>) returns (pushed: List<Path>)
    requires met != Nil
    ensures r.Pushed(Append(met, next)) == Append(r.Pushed(met), pushed)
  {
    pushed := Nil;
    if next.Snoc? {
      pushed := PushedBy(r, met, next.init);
      if r.Pushes(r.Visit(r.After(Append(met, next.init)), next.last).1, next.last) {
        pushed := Snoc(pushed, next.last);
      }
    }
  }

  lemma {:induction false} Stacked(l: List<Path>) returns (s: seq<Path>)
    ensures multiset(s) == Bag(l)
  {
    s := [];
    if l.Snoc? {
      s := Stacked(l.init);
      s := s + [l.last];
    }
  }

  /** A round that never finishes has traces of every length. */
  lemma {:induction false} TraceOf(r: Round, root: Path, n: nat) returns (pending: seq<Path>, expanded: List<Path>)
    requires r.mode == Raise && r.world.WellFormed() && AliasesAgree(r.world) && Starts(r) && root in r.world.ino
    requires Endless(r.world, root)
    ensures r.Tracks(root, pending, expanded) && Length(expanded) == n
  {
    if n == 0 {
      pending, expanded := [root], Nil;
    } else {
      pending, expanded := TraceOf(r, root, n - 1);
      if pending == [] {
        DoneIsNotEndless(r, root, expanded);
      }
      var dir, rest := pending[0], pending[1..];
      assert pending == [dir] + rest;
      var met := r.world.Met(root, expanded);
      MetFirst(r.world, root, expanded);
      var pushed := PushedBy(r, met, r.world.Next(dir));
      var more := Stacked(pushed);
      r.Tracked(root, dir, rest, expanded, rest + more, pushed);
      pending, expanded := rest + more, Snoc(expanded, dir);
    }
  }

  /** The expansions of a raising round are bounded if and only if no cycle of dentries with
      inode numbers of 2^32 or more is reachable from its root, provided that dentries of one
      inode lead to the same inodes. */
  lemma EndsExactly(r: Round, root: Path)
    requires r.mode == Raise && r.world.WellFormed() && AliasesAgree(r.world) && Starts(r) && root in r.world.ino
    ensures (exists bound :: Bounded(r, root, bound)) <==> !Endless(r.world, root)
  {
    if Endless(r.world, root) {
      forall bound: nat ensures !Bounded(r, root, bound) {
        var pending, expanded := TraceOf(r, root, bound + 1);
      }
    } else {
      var bound := RoundBound(r, root);
    }
  }
}
