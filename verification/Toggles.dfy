/** The on/off machines of state_machine.c under their reader-writer semaphores, with the
    ioctls of ioctl.c as interleaved callers.  The two machines (rec and set) have the same
    shape and share nothing, so one machine is modelled, for any number of callers. */
module Toggles {
  import opened Lists

  datatype Toggle = ON | OFF

  datatype Result = Busy | Denied | Invalid | Success

  /** Where a caller is.  The first group are path ioctls, the second klrm_rec or klrm_set. */
  datatype Pc =
    | Idle
    | Entered              // down_read done, toggle not looked at yet
    | Refused              // the toggle was OFF, up_read to come
    | Inside               // enter succeeded, password not checked yet
    | Working              // password accepted
    | Exiting              // work done, up_read to come
    | Leaked               // password rejected: returned without the exit
    | Waiting(v: Toggle)   // password accepted, down_write to come
    | Writing(v: Toggle)   // down_write done
    | Written              // toggle assigned, up_write to come
    | Returned(r: Result)
  {
    /** Holds the semaphore for reading. */
    predicate Reads() { Entered? || Refused? || Inside? || Working? || Exiting? || Leaked? }

    /** Between a successful enter and its exit. */
    predicate In() { Inside? || Working? || Exiting? || Leaked? }

    predicate Writes() { Writing? || Written? }
  }

  /** The semaphore counts its readers and knows whether a writer is in. */
  datatype State = State(toggle: Toggle, readers: nat, writer: bool, pcs: map<nat, Pc>)
  {
    function At(t: nat): Pc {
      if t in pcs then pcs[t] else Idle
    }

    function Move(t: nat, pc: Pc): State {
      this.(pcs := pcs[t := pc])
    }
  }

  /** Both enums are zero-initialised, and ON is 0. */
  const INITIAL := State(ON, 0, false, map[])

  /** One atomic step of caller `t`. */
  ghost predicate Step(s: State, t: nat, s': State) {
    match s.At(t)
    case Idle =>
      || (!s.writer && s' == s.Move(t, Entered).(readers := s.readers + 1))
      || s' == s.Move(t, Returned(Denied))                // klrm_rec, klrm_set: password rejected
      || s' == s.Move(t, Returned(Invalid))               // neither "on" nor "off"
      || exists v :: s' == s.Move(t, Waiting(v))
    case Entered => s' == s.Move(t, if s.toggle == ON then Inside else Refused)
    case Refused => s.readers > 0 && s' == s.Move(t, Returned(Busy)).(readers := s.readers - 1)
    case Inside => s' == s.Move(t, Working) || s' == s.Move(t, Leaked)
    case Working => s' == s.Move(t, Exiting)
    case Exiting => s.readers > 0 && s' == s.Move(t, Returned(Success)).(readers := s.readers - 1)
    case Waiting(v) => s.readers == 0 && !s.writer && s' == s.Move(t, Writing(v)).(writer := true)
    case Writing(v) => s' == s.Move(t, Written).(toggle := v)
    case Written => s' == s.Move(t, Returned(Success)).(writer := false)
    case Leaked => false
    case Returned(_) => false
  }

  /** An interleaving: who moved, and the state after. */
  type Run = List<(nat, State)>

  function End(s: State, run: Run): State {
    if run.Nil? then s else run.last.1
  }

  ghost predicate Runs(s: State, run: Run) {
    run.Snoc? ==> Runs(s, run.init) && Step(End(s, run.init), run.last.0, run.last.1)
  }

  /** `run` and then the step of `t` to `s'`. */
  ghost function Then(s: State, run: Run, t: nat, s': State): (r: Run)
    requires Runs(s, run) && Step(End(s, run), t, s')
    ensures Runs(s, r) && End(s, r) == s'
  {
    Snoc(run, (t, s'))
  }

  // ---------------------------------------------------------------- safety

  ghost function Readers(s: State): set<nat> {
    set t | t in s.pcs && s.pcs[t].Reads()
  }

  ghost function Writers(s: State): set<nat> {
    set t | t in s.pcs && s.pcs[t].Writes()
  }

  /** Held read locks are callers inside, a writer is alone, and whoever is in sees ON. */
  ghost predicate Inv(s: State) {
    && s.readers == |Readers(s)|
    && |Writers(s)| == (if s.writer then 1 else 0)
    && (s.writer ==> s.readers == 0)
    && (forall t :: s.At(t).In() ==> s.toggle == ON)
    && (forall t :: s.At(t).Refused? ==> s.toggle == OFF)
  }

  /** A step of `t` changes the two counts by what it does to the locks of `t`. */
  lemma Counts(s: State, t: nat, s': State)
    requires s'.pcs == s.pcs[t := s'.At(t)]
    ensures |Readers(s')| + One(s.At(t).Reads()) == |Readers(s)| + One(s'.At(t).Reads())
    ensures |Writers(s')| + One(s.At(t).Writes()) == |Writers(s)| + One(s'.At(t).Writes())
    ensures forall u :: u != t ==> s'.At(u) == s.At(u)
  {
    SplitBoth(Readers(s), Readers(s'), t);
    SplitBoth(Writers(s), Writers(s'), t);
  }

  lemma SplitBoth(x: set<nat>, y: set<nat>, t: nat)
    requires forall u :: u != t ==> (u in x <==> u in y)
    ensures |y| + One(t in x) == |x| + One(t in y)
  {
    assert x - {t} == y - {t};
    Split(x, t);
    Split(y, t);
  }

  lemma Split(x: set<nat>, t: nat)
    ensures |x| == |x - {t}| + One(t in x)
  {
    if t in x {
      assert x == x - {t} + {t};
    } else {
      assert x == x - {t};
    }
  }

  lemma StepMoves(s: State, t: nat, s': State)
    requires Step(s, t, s')
    ensures s'.pcs == s.pcs[t := s'.At(t)]
  {
  }

  /** Whoever reads is counted. */
  lemma Counted(s: State, t: nat)
    ensures s.At(t).Reads() ==> |Readers(s)| > 0
    ensures s.At(t).Writes() ==> |Writers(s)| > 0
  {
    assert s.At(t).Reads() ==> t in Readers(s);
    assert s.At(t).Writes() ==> t in Writers(s);
  }

  lemma InvStep(s: State, t: nat, s': State)
    requires Inv(s) && Step(s, t, s')
    ensures Inv(s')
  {
    StepMoves(s, t, s');
    Counts(s, t, s');
    Counted(s, t);
    if s.At(t).Writing? {
      forall u | u != t ensures !s.At(u).Reads() {
        Counted(s, u);
      }
    }
  }

  /** In every interleaving of any number of callers: while a caller is between a successful
      enter and its exit the toggle is ON and no writer is in, and the read locks held are
      exactly the callers that hold one. */
  lemma {:induction false} Safety(run: Run)
    requires Runs(INITIAL, run)
    ensures Inv(End(INITIAL, run))
    ensures var s := End(INITIAL, run);
            && s.readers == |Readers(s)|
            && forall t :: s.At(t).In() ==> s.toggle == ON && !s.writer && Writers(s) == {}
  {
    if run.Nil? {
      assert Readers(INITIAL) == {} && Writers(INITIAL) == {};
    } else {
      Safety(run.init);
      InvStep(End(INITIAL, run.init), run.last.0, run.last.1);
    }
    var s := End(INITIAL, run);
    forall t | s.At(t).In() ensures !s.writer && Writers(s) == {} {
      Counted(s, t);
    }
  }

  /** No caller has turned the toggle off. */
  ghost predicate NeverTurnedOff(s: State, run: Run) {
    match run
    case Nil => true
    case Snoc(init, step) =>
      NeverTurnedOff(s, init) && End(s, init).At(step.0) != Writing(OFF)
  }

  /** From loading on, no caller is refused unless some caller has turned the toggle off. */
  lemma {:induction false} RefusedOnlyWhenOff(run: Run)
    requires Runs(INITIAL, run) && NeverTurnedOff(INITIAL, run)
    ensures End(INITIAL, run).toggle == ON
    ensures forall t :: End(INITIAL, run).At(t) != Refused && End(INITIAL, run).At(t) != Returned(Busy)
  {
    if run.Snoc? {
      RefusedOnlyWhenOff(run.init);
      var s, t, s' := End(INITIAL, run.init), run.last.0, run.last.1;
      StepMoves(s, t, s');
      Counts(s, t, s');
      assert s'.toggle == ON && s'.At(t) != Refused && s'.At(t) != Returned(Busy);
    }
  }

  // ---------------------------------------------------------------- the rejected password

  /** Some call has returned without its exit. */
  ghost predicate HasLeaked(s: State) {
    exists t :: s.At(t).Leaked?
  }

  /** After a rejected password, in every continuation: the lock stays taken, no writer ever
      gets in, and the toggle stays ON for good. */
  lemma {:induction false} FrozenOn(s: State, run: Run)
    requires Inv(s) && HasLeaked(s) && Runs(s, run)
    ensures var s' := End(s, run);
            Inv(s') && HasLeaked(s') && s'.toggle == ON && s'.readers > 0 && !s'.writer
  {
    var s' := End(s, run);
    if run.Snoc? {
      var mid, t := End(s, run.init), run.last.0;
      FrozenOn(s, run.init);
      InvStep(mid, t, s');
      StepMoves(mid, t, s');
      var u :| mid.At(u).Leaked?;
      assert s'.At(u).Leaked?;
    }
    var u :| s'.At(u).Leaked?;
    Counted(s', u);
  }

  lemma {:induction false} RunOn(s: State, run: Run, more: Run)
    requires Runs(s, run) && Runs(End(s, run), more)
    ensures Runs(s, Append(run, more)) && End(s, Append(run, more)) == End(End(s, run), more)
  {
    if more.Snoc? {
      RunOn(s, run, more.init);
    }
  }

  /** The steps that bring a caller which holds the lock, and has not leaked it, to its
      return, when its password is accepted. */
  function Rank(pc: Pc): nat {
    match pc
    case Entered => 4
    case Inside => 3
    case Working => 2
    case Exiting => 1
    case Refused => 1
    case Writing(_) => 2
    case Written => 1
    case _ => 0
  }

  function Forward(s: State, t: nat): State {
    match s.At(t)
    case Entered => s.Move(t, if s.toggle == ON then Inside else Refused)
    case Inside => s.Move(t, Working)
    case Working => s.Move(t, Exiting)
    case Writing(v) => s.Move(t, Written).(toggle := v)
    case Written => s.Move(t, Returned(Success)).(writer := false)
    case Refused => s.Move(t, Returned(Busy)).(readers := if s.readers > 0 then s.readers - 1 else 0)
    case _ => s.Move(t, Returned(Success)).(readers := if s.readers > 0 then s.readers - 1 else 0)
  }

  lemma ForwardSteps(s: State, t: nat)
    requires Inv(s) && (s.At(t).Reads() || s.At(t).Writes()) && !s.At(t).Leaked?
    ensures Step(s, t, Forward(s, t)) && Inv(Forward(s, t))
    ensures forall u :: u != t ==> Forward(s, t).At(u) == s.At(u)
  {
    Counted(s, t);
    InvStep(s, t, Forward(s, t));
  }

  lemma {:induction false} Finishes(s: State, t: nat) returns (run: Run)
    requires Inv(s) && (s.At(t).Reads() || s.At(t).Writes()) && !s.At(t).Leaked?
    ensures Runs(s, run) && Inv(End(s, run))
    ensures End(s, run).At(t).Returned? && forall u :: u != t ==> End(s, run).At(u) == s.At(u)
    decreases Rank(s.At(t))
  {
    var next := Forward(s, t);
    ForwardSteps(s, t);
    run := Snoc(Nil, (t, next));
    if !next.At(t).Returned? {
      var more := Finishes(next, t);
      RunOn(s, run, more);
      run := Append(run, more);
    }
  }

  lemma HolderGone(s: State, mid: State, t: nat)
    requires mid.At(t).Returned? && forall u :: u != t ==> mid.At(u) == s.At(u)
    ensures Readers(mid) + Writers(mid) == Readers(s) + Writers(s) - {t}
    ensures HasLeaked(mid) ==> HasLeaked(s)
  {
    forall u ensures u in Readers(mid) + Writers(mid) <==> u in Readers(s) + Writers(s) - {t} {
      assert u != t ==> mid.At(u) == s.At(u);
    }
    if HasLeaked(mid) {
      var u :| mid.At(u).Leaked?;
      assert s.At(u).Leaked?;
    }
  }

  /** Without a leak every lock can be given back. */
  lemma {:induction false} Drains(s: State, holders: set<nat>) returns (run: Run)
    requires Inv(s) && !HasLeaked(s) && holders == Readers(s) + Writers(s)
    ensures Runs(s, run) && Inv(End(s, run)) && End(s, run).readers == 0 && !End(s, run).writer
    ensures forall t :: t !in holders ==> End(s, run).At(t) == s.At(t)
    decreases holders
  {
    run := Nil;
    if holders != {} {
      var t :| t in holders;
      assert !s.At(t).Leaked?;
      run := Finishes(s, t);
      HolderGone(s, End(s, run), t);
      var more := Drains(End(s, run), holders - {t});
      RunOn(s, run, more);
      run := Append(run, more);
    }
  }

  /** A caller waiting to set the toggle can still get in, in some continuation, exactly when
      no call has leaked its lock. */
  lemma WriterCanEnter(s: State, w: nat)
    requires Inv(s) && s.At(w).Waiting?
    ensures (exists run :: Runs(s, run) && End(s, run).At(w) == Writing(s.At(w).v)) <==> !HasLeaked(s)
  {
    if HasLeaked(s) {
      forall run | Runs(s, run) ensures !End(s, run).At(w).Writes() {
        FrozenOn(s, run);
        Counted(End(s, run), w);
      }
    } else {
      var run := Drains(s, Readers(s) + Writers(s));
      var mid := End(s, run);
      assert mid.At(w) == s.At(w);
      var entered := mid.Move(w, Writing(s.At(w).v)).(writer := true);
      assert Runs(s, Snoc(run, (w, entered)));
      assert End(s, Snoc(run, (w, entered))).At(w) == Writing(s.At(w).v);
    }
  }

  // ---------------------------------------------------------------- the calls, one at a time

  const EBUSY: int := 16
  const EACCES: int := 13
  const EINVAL: int := 22

  /** One machine with its semaphore.  A call that would block is not made.  Each ioctl, run
      without interruption, is a run of the protocol by one caller. */
  class Machine {
    var toggle: Toggle
    var readers: nat

    /** The machine is in state `s` of the protocol, with no writer in. */
    ghost predicate Shows(s: State)
      reads this
    {
      s.toggle == toggle && s.readers == readers && !s.writer
    }

    /** state_machine_enter_on, state_machine_enter_rec_on */
    method Enter(ghost t: nat, ghost s: State) returns (r: int, ghost run: Run)
      requires Shows(s) && s.At(t) == Idle
      modifies this`readers
      ensures r == (if toggle == ON then 1 else 0) && readers == old(readers) + r
      ensures Runs(s, run) && Shows(End(s, run))
      ensures End(s, run).At(t) == if r == 1 then Inside else Returned(Busy)
    {
      readers := readers + 1;
      ghost var entered := s.Move(t, Entered).(readers := readers);
      run := Then(s, Nil, t, entered);
      if toggle == ON {
        return 1, Then(s, run, t, entered.Move(t, Inside));
      } else {
        readers := readers - 1;
        ghost var refused := entered.Move(t, Refused);
        run := Then(s, run, t, refused);
        return 0, Then(s, run, t, refused.Move(t, Returned(Busy)).(readers := readers));
      }
    }

    /** state_machine_exit, state_machine_rec_exit */
    method Exit(ghost t: nat, ghost s: State) returns (ghost s': State)
      requires Shows(s) && s.At(t) == Exiting && readers > 0
      modifies this`readers
      ensures readers == old(readers) - 1
      ensures Step(s, t, s') && Shows(s') && s'.At(t) == Returned(Success)
    {
      readers := readers - 1;
      s' := s.Move(t, Returned(Success)).(readers := readers);
    }

    /** set_machine_on and its three siblings */
    method Set(v: Toggle, ghost t: nat, ghost s: State) returns (ghost run: Run)
      requires Shows(s) && s.At(t) == Waiting(v) && readers == 0
      modifies this`toggle
      ensures toggle == v
      ensures Runs(s, run) && Shows(End(s, run)) && End(s, run).At(t) == Returned(Success)
    {
      ghost var writing := s.Move(t, Writing(v)).(writer := true);
      toggle := v;
      ghost var written := writing.Move(t, Written).(toggle := v);
      ghost var done := written.Move(t, Returned(Success)).(writer := false);
      run := Then(s, Then(s, Then(s, Nil, t, writing), t, written), t, done);
    }

    /** klrm_path_add, klrm_path_rm and klrm_path_check around their store operation, which
        returns `ret`.  The net hold is zero unless the password was rejected. */
    method PathIoctl(accepted: bool, ret: int, ghost t: nat, ghost s: State) returns (r: int, ghost run: Run)
      requires Shows(s) && s.At(t) == Idle
      modifies this`readers
      ensures r == if toggle == OFF then -16 else if !accepted then -13 else ret
      ensures readers == old(readers) + One(toggle == ON && !accepted)
      ensures Runs(s, run) && Shows(End(s, run))
      ensures End(s, run).At(t) ==
              if toggle == OFF then Returned(Busy) else if !accepted then Leaked else Returned(Success)
    {
      var entered;
      entered, run := Enter(t, s);
      if entered == 0 {
        return -EBUSY, run;
      }
      if !accepted {
        return -EACCES, Then(s, run, t, End(s, run).Move(t, Leaked));
      }
      run := Then(s, run, t, End(s, run).Move(t, Working));
      run := Then(s, run, t, End(s, run).Move(t, Exiting));
      r := ret;
      ghost var done := Exit(t, End(s, run));
      run := Then(s, run, t, done);
    }

    /** klrm_set and klrm_rec */
    method SetIoctl(accepted: bool, word: string, ghost t: nat, ghost s: State) returns (r: int, ghost run: Run)
      requires Shows(s) && s.At(t) == Idle && readers == 0
      modifies this`toggle
      ensures r == if !accepted then -13 else if word == "on" || word == "off" then 0 else -22
      ensures toggle == if r != 0 then old(toggle) else if word == "on" then ON else OFF
      ensures Runs(s, run) && Shows(End(s, run))
      ensures End(s, run).At(t) == Returned(if !accepted then Denied else if r == 0 then Success else Invalid)
    {
      if !accepted {
        return -EACCES, Then(s, Nil, t, s.Move(t, Returned(Denied)));
      }
      if word != "on" && word != "off" {
        return -EINVAL, Then(s, Nil, t, s.Move(t, Returned(Invalid)));
      }
      var v := if word == "on" then ON else OFF;
      run := Then(s, Nil, t, s.Move(t, Waiting(v)));
      ghost var more := Set(v, t, End(s, run));
      RunOn(s, run, more);
      r, run := 0, Append(run, more);
    }
  }
}
