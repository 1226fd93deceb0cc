/** Whole lives of the log: writes that commit, writes torn by an unreadable block, unmounts and
    failed mounts that save the offsets, mounts that load them, and reloads of the module in
    between. */
module LogRuns {
  import opened RingLog
  import opened Lists

  /** The log with its offsets in memory, and the offsets in the on-disk inode. */
  datatype Fs = Fs(log: Log, mounted: bool, savedStart: nat, savedEnd: nat)

  datatype Event =
    | Store(data: seq<Byte>)               // a committed write, partial user writes included
    | Tear(data: seq<Byte>, copied: nat)   // an internal write that failed after `copied` bytes
    | Kill(inodeReadable: bool)            // an unmount, or the end of a mount that failed
    | Reload                               // the globals start from zero again
    | Mount(complete: bool)                // loads the offsets; what follows may lack memory

  function Apply(fs: Fs, e: Event): (r: Fs)
    requires |fs.log.ring| > 0
    ensures |r.log.ring| == |fs.log.ring|
  {
    match e
    case Store(data) => if fs.mounted then fs.(log := Commit(fs.log, data)) else fs
    case Tear(data, c) =>
      if fs.mounted && c <= |data| then fs.(log := fs.log.(ring := Written(fs.log.ring, fs.log.end, data, c))) else fs
    case Kill(inodeReadable) => if inodeReadable then Fs(fs.log, false, fs.log.start, fs.log.end) else fs
    case Reload => if fs.mounted then fs else fs.(log := Log(fs.log.ring, 0, 0))
    case Mount(complete) =>
      if fs.mounted then fs else fs.(log := Log(fs.log.ring, fs.savedStart, fs.savedEnd), mounted := complete)
  }

  /** A new device, as mkfs leaves it, before its first mount. */
  function New(ring: seq<Byte>): Fs {
    Fs(Log(ring, 0, 0), false, 0, 0)
  }

  function After(ring: seq<Byte>, run: List<Event>): (r: Fs)
    requires |ring| > 0
    ensures |r.log.ring| == |ring|
  {
    match run
    case Nil => New(ring)
    case Snoc(init, e) => Apply(After(ring, init), e)
  }

  /** A kill that saves offsets which were never loaded since the module was: a mount has failed
      before it came to them. */
  predicate Forgets(fs: Fs, e: Event) {
    e.Kill? && e.inodeReadable && !fs.mounted && fs.log.end != fs.savedEnd
  }

  /** Everything committed since the offsets were last forgotten. */
  function History(ring: seq<Byte>, run: List<Event>): seq<Byte>
    requires |ring| > 0
  {
    match run
    case Nil => []
    case Snoc(init, e) =>
      if e.Store? && After(ring, init).mounted then History(ring, init) + e.data
      else if Forgets(After(ring, init), e) then []
      else History(ring, init)
  }

  /** Everything committed so far. */
  function Everything(ring: seq<Byte>, run: List<Event>): seq<Byte>
    requires |ring| > 0
  {
    match run
    case Nil => []
    case Snoc(init, e) =>
      if e.Store? && After(ring, init).mounted then Everything(ring, init) + e.data else Everything(ring, init)
  }

  ghost predicate EverForgets(ring: seq<Byte>, run: List<Event>)
    requires |ring| > 0
  {
    match run
    case Nil => false
    case Snoc(init, e) => EverForgets(ring, init) || Forgets(After(ring, init), e)
  }

  /** The current offsets, wherever they are kept, delimit the last bytes of the history; when
      not mounted, those in memory are the saved ones or zero. */
  ghost predicate Window(fs: Fs, history: seq<Byte>) {
    var end, start := |history|, Oldest(|history|, |fs.log.ring|);
    if fs.mounted then fs.log.end == end && fs.log.start == start
    else
      && fs.savedEnd == end && fs.savedStart == start
      && ((fs.log.end == end && fs.log.start == start) || (fs.log.end == 0 && fs.log.start == 0))
  }

  /** Over every run, torn writes, failed mounts, unmounts, reloads and remounts included, the
      window is the last min(end, size) bytes committed since the offsets were last forgotten. */
  lemma {:induction false} WindowAlways(ring: seq<Byte>, run: List<Event>)
    requires |ring| > 0
    ensures Window(After(ring, run), History(ring, run))
  {
    if run.Snoc? {
      WindowAlways(ring, run.init);
    }
  }

  /** That is everything ever committed exactly when they never were. */
  lemma {:induction false} ForgetsExactly(ring: seq<Byte>, run: List<Event>)
    requires |ring| > 0
    ensures |History(ring, run)| <= |Everything(ring, run)|
    ensures EverForgets(ring, run) ==> |History(ring, run)| < |Everything(ring, run)|
    ensures History(ring, run) == Everything(ring, run) <==> !EverForgets(ring, run)
  {
    if run.Snoc? {
      ForgetsExactly(ring, run.init);
      WindowAlways(ring, run.init);
    }
  }

  /** Once mounted, what is written is committed. */
  lemma MountedCommits(ring: seq<Byte>, run: List<Event>, data: seq<Byte>)
    requires |ring| > 0 && !After(ring, run).mounted
    ensures var more := Snoc(Snoc(run, Mount(true)), Store(data));
            && History(ring, more) == History(ring, run) + data
            && After(ring, more).log.end == |History(ring, run)| + |data|
  {
    WindowAlways(ring, run);
    var mounted := Snoc(run, Mount(true));
    assert After(ring, mounted).mounted && History(ring, mounted) == History(ring, run);
    WindowAlways(ring, Snoc(mounted, Store(data)));
  }

  /** Unmount, reload the module, and fail to mount: everything committed is forgotten. */
  lemma ReloadForgets(ring: seq<Byte>, run: List<Event>)
    requires |ring| > 0 && After(ring, run).mounted && History(ring, run) != []
    ensures var more := Snoc(Snoc(Snoc(run, Kill(true)), Reload), Kill(true));
            EverForgets(ring, more) && History(ring, more) == [] && Everything(ring, more) == Everything(ring, run)
  {
    WindowAlways(ring, run);
    var unmounted := Snoc(run, Kill(true));
    var reloaded := Snoc(unmounted, Reload);
    assert !After(ring, unmounted).mounted && After(ring, unmounted).savedEnd == |History(ring, run)|;
    assert After(ring, reloaded).log.end == 0 && Everything(ring, reloaded) == Everything(ring, run);
    assert Forgets(After(ring, reloaded), Kill(true));
  }

  /** A mount that fails only after it has loaded the offsets loses nothing. */
  lemma LateFailureKeeps(ring: seq<Byte>, run: List<Event>)
    requires |ring| > 0 && !After(ring, run).mounted
    ensures var more := Snoc(Snoc(run, Mount(false)), Kill(true));
            History(ring, more) == History(ring, run) && After(ring, more).savedEnd == After(ring, run).savedEnd
  {
    var failed := Snoc(run, Mount(false));
    assert After(ring, failed).log.end == After(ring, run).savedEnd && History(ring, failed) == History(ring, run);
  }

  /** The window in plain figures: the last min(end, size) bytes. */
  lemma WindowLength(ring: seq<Byte>, run: List<Event>)
    requires |ring| > 0 && After(ring, run).mounted
    ensures var log := After(ring, run).log;
            log.start <= log.end && log.end - log.start == Min(|History(ring, run)|, |ring|)
  {
    WindowAlways(ring, run);
  }

  // ---------------------------------------------------------------- torn writes over a run

  /** The highest offset a torn write has reached.  One that laps the ring reaches every slot
      once. */
  function Mark(ring: seq<Byte>, run: List<Event>): nat
    requires |ring| > 0
  {
    match run
    case Nil => 0
    case Snoc(init, e) =>
      if e.Tear? && After(ring, init).mounted && e.copied <= |e.data| then
        Max(Mark(ring, init), |History(ring, init)| + if e.copied < |ring| then e.copied else |ring|)
      else if Forgets(After(ring, init), e) then 0
      else Mark(ring, init)
  }

  function Max(a: nat, b: nat): nat {
    if a > b then a else b
  }

  lemma {:induction false} MarkBound(ring: seq<Byte>, run: List<Event>)
    requires |ring| > 0
    ensures Mark(ring, run) <= |History(ring, run)| + |ring|
  {
    if run.Snoc? {
      MarkBound(ring, run.init);
    }
  }

  /** No offset from `from` up to `to` shares the slot of `p`. */
  ghost predicate Apart(from: nat, to: nat, p: nat, size: nat)
    requires size > 0
  {
    forall q {:trigger Slot(q, size)} :: from <= q < to ==> Slot(q, size) != Slot(p, size)
  }

  /** A run of offsets that avoids the slot of a live one is shorter than the ring. */
  lemma ApartIsShort(end: nat, to: nat, p: nat, size: nat)
    requires size > 0 && Oldest(end, size) <= p < end && Apart(end, to, p, size)
    ensures to < end + size
  {
    assert Slot(p + size, size) == Slot(p, size);
  }

  /** A live byte that shares no slot with an offset that a torn write reached and no commit has
      passed is what was committed. */
  lemma {:induction false} LiveByte(ring: seq<Byte>, run: List<Event>, p: nat)
    requires |ring| > 0 && Apart(|History(ring, run)|, Mark(ring, run), p, |ring|)
    requires Oldest(|History(ring, run)|, |ring|) <= p < |History(ring, run)|
    ensures After(ring, run).log.ring[Slot(p, |ring|)] == History(ring, run)[p]
  {
    var fs, history, e := After(ring, run.init), History(ring, run.init), run.last;
    WindowAlways(ring, run.init);
    if e.Store? && fs.mounted {
      if p >= |history| {
        WrittenAt(fs.log.ring, |history|, e.data, |e.data|, p);
      } else {
        SlotsKept(fs.log.ring, |history|, e.data, |e.data|, p);
        StillNotOverrun(ring, run, p);
        LiveByte(ring, run.init, p);
      }
    } else if e.Tear? && fs.mounted && e.copied <= |e.data| {
      NotOverrunByTear(ring, run, p);
      SlotUntouched(fs.log.ring, |history|, e.data, e.copied, Slot(p, |ring|));
      LiveByte(ring, run.init, p);
    } else {
      LiveByte(ring, run.init, p);
    }
  }

  lemma StillNotOverrun(ring: seq<Byte>, run: List<Event>, p: nat)
    requires |ring| > 0 && run.Snoc? && run.last.Store? && After(ring, run.init).mounted
    requires Apart(|History(ring, run)|, Mark(ring, run), p, |ring|)
    requires p < |History(ring, run.init)| && |History(ring, run)| <= p + |ring|
    ensures Apart(|History(ring, run.init)|, Mark(ring, run.init), p, |ring|)
  {
    forall q | |History(ring, run.init)| <= q < Mark(ring, run.init) ensures Slot(q, |ring|) != Slot(p, |ring|) {
      if q < |History(ring, run)| {
        SlotsDiffer(p, q, |ring|);
      }
    }
  }

  lemma NotOverrunByTear(ring: seq<Byte>, run: List<Event>, p: nat)
    requires |ring| > 0 && run.Snoc? && run.last.Tear? && run.last.copied <= |run.last.data|
    requires After(ring, run.init).mounted && Apart(|History(ring, run)|, Mark(ring, run), p, |ring|)
    requires Oldest(|History(ring, run)|, |ring|) <= p < |History(ring, run)|
    ensures Apart(|History(ring, run.init)|, Mark(ring, run.init), p, |ring|)
    ensures Apart(|History(ring, run.init)|, |History(ring, run.init)| + run.last.copied, p, |ring|)
  {
    ApartIsShort(|History(ring, run)|, Mark(ring, run), p, |ring|);
  }

  /** Every torn write is passed by later commits, or the log is empty, or none has reached the
      first wrap. */
  ghost predicate Clean(ring: seq<Byte>, run: List<Event>)
    requires |ring| > 0
  {
    Mark(ring, run) <= |History(ring, run)| || History(ring, run) == [] || Mark(ring, run) <= |ring|
  }

  lemma {:induction false} SmallSlot(p: nat, size: nat)
    requires p < size
    ensures Slot(p, size) == p
  {
  }

  lemma CleanIsFaithful(ring: seq<Byte>, run: List<Event>)
    requires |ring| > 0 && Clean(ring, run)
    ensures Faithful(After(ring, run).log.ring, History(ring, run))
    ensures After(ring, run).mounted ==> Consistent(After(ring, run).log, History(ring, run))
  {
    WindowAlways(ring, run);
    var history := History(ring, run);
    forall p | Oldest(|history|, |ring|) <= p < |history|
      ensures After(ring, run).log.ring[Slot(p, |ring|)] == history[p]
    {
      if Mark(ring, run) <= |ring| {
        forall q | |history| <= q < Mark(ring, run) ensures Slot(q, |ring|) != Slot(p, |ring|) {
          SmallSlot(p, |ring|);
          SmallSlot(q, |ring|);
        }
      }
      LiveByte(ring, run, p);
    }
  }

  /** The same events, but for the contents of the torn payloads. */
  ghost predicate SameShape(run: List<Event>, other: List<Event>) {
    match run
    case Nil => other.Nil?
    case Snoc(init, e) =>
      && other.Snoc? && SameShape(init, other.init)
      && if e.Tear? then
           other.last.Tear? && other.last.copied == e.copied && |other.last.data| == |e.data| && ZeroFree(other.last.data)
         else other.last == e
  }

  lemma {:induction false} ShapeDecides(ring: seq<Byte>, run: List<Event>, other: List<Event>)
    requires |ring| > 0 && SameShape(run, other)
    ensures History(ring, other) == History(ring, run) && Mark(ring, other) == Mark(ring, run)
    ensures After(ring, run) == After(ring, other).(log := After(ring, other).log.(ring := After(ring, run).log.ring))
  {
    if run.Snoc? {
      ShapeDecides(ring, run.init, other.init);
    }
  }

  ghost predicate Painted(run: List<Event>, b: Byte) {
    match run
    case Nil => true
    case Snoc(init, e) => Painted(init, b) && (e.Tear? ==> forall i :: 0 <= i < |e.data| ==> e.data[i] == b)
  }

  lemma {:induction false} Paint(run: List<Event>, b: Byte) returns (other: List<Event>)
    requires b != 0
    ensures SameShape(run, other) && Painted(other, b)
  {
    match run
    case Nil => other := Nil;
    case Snoc(init, e) =>
      other := Paint(init, b);
      other := Snoc(other, if e.Tear? then Tear(seq(|e.data|, _ => b), e.copied) else e);
  }

  /** Past the end of the log up to the mark the ring shows the torn payloads. */
  lemma {:induction false} ShowsPaint(ring: seq<Byte>, run: List<Event>, b: Byte, q: nat)
    requires |ring| > 0 && Painted(run, b) && |History(ring, run)| <= q < Mark(ring, run)
    ensures After(ring, run).log.ring[Slot(q, |ring|)] == b
  {
    var fs, history, e := After(ring, run.init), History(ring, run.init), run.last;
    WindowAlways(ring, run.init);
    MarkBound(ring, run.init);
    if e.Store? && fs.mounted {
      ShowsPaint(ring, run.init, b, q);
      forall x | |history| <= x < |history| + |e.data| ensures Slot(x, |ring|) != Slot(q, |ring|) {
        SlotsDiffer(x, q, |ring|);
      }
      SlotUntouched(fs.log.ring, |history|, e.data, |e.data|, Slot(q, |ring|));
    } else if e.Tear? && fs.mounted && e.copied <= |e.data| {
      if q < |history| + e.copied {
        ConstantWritten(fs.log.ring, |history|, e.data, e.copied, q, b);
      } else {
        ShowsPaint(ring, run.init, b, q);
        ConstantKept(fs.log.ring, |history|, e.data, e.copied, Slot(q, |ring|), b);
      }
    } else {
      ShowsPaint(ring, run.init, b, q);
    }
  }

  lemma UncleanIsTorn(ring: seq<Byte>, run: List<Event>) returns (other: List<Event>)
    requires |ring| > 0 && !Clean(ring, run)
    ensures SameShape(run, other) && !Faithful(After(ring, other).log.ring, History(ring, other))
  {
    var history := History(ring, run);
    // the first reached offset whose slot is live, and the live offset it hits
    var q := Max(|history|, |ring|);
    var p := q - |ring|;
    var b: Byte := if history[p] == 1 then 2 else 1;
    other := Paint(run, b);
    ShapeDecides(ring, run, other);
    ShowsPaint(ring, other, b, q);
    assert Slot(q, |ring|) == Slot(p, |ring|);
  }

  /** Over every run, whatever the torn payloads were, the ring holds the whole window if and
      only if commits have passed every torn write, or the log is empty, or no torn write has
      reached the first wrap. */
  lemma FaithfulExactly(ring: seq<Byte>, run: List<Event>)
    requires |ring| > 0
    ensures (forall other :: SameShape(run, other) ==> Faithful(After(ring, other).log.ring, History(ring, other)))
            <==> Clean(ring, run)
  {
    if Clean(ring, run) {
      forall other | SameShape(run, other) ensures Faithful(After(ring, other).log.ring, History(ring, other)) {
        ShapeDecides(ring, run, other);
        CleanIsFaithful(ring, other);
      }
    } else {
      var other := UncleanIsTorn(ring, run);
    }
  }
}
