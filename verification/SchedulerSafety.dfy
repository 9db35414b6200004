/** What holds in every reachable state of the interleaved scheduler: the lock excludes, every core runs its own
    task, and the fine-grained steps add up to the atomic calls and creations of `Scheduler`. */
module SchedulerSafety {
  import opened Scheduler
  import opened SchedulerQueue
  import opened SchedulerRuns

  ghost predicate Base(s: State) {
    LockInv(s) && MakerInv(s) && CoreInv(s) && ChosenInv(s) && ScanInv(s)
  }

  lemma SwitchedKeepsCores(tasks: seq<Task>, current: seq<int>, c: nat, next: nat, frame: Regs)
    requires OneCoreEach(Sched(tasks, current)) && c < |current| && next < |tasks|
    requires tasks[next].status.Waiting? || tasks[next].status.WaitingToStart?
    ensures OneCoreEach(Sched(Switched(tasks, current[c], next, frame), current[c := next]))
  {
    var tasks', current' := Switched(tasks, current[c], next, frame), current[c := next];
    forall i | 0 <= i < |tasks| && tasks'[i].status.Running? ensures i in current' {
      if i == next {
        assert current'[c] == i;
      } else {
        var d :| 0 <= d < |current| && current[d] == i;
        assert current'[d] == i;
      }
    }
  }

  lemma CoresKeptByCommit(s: State, c: nat)
    requires CoreInv(s) && ChosenInv(s) && Enabled(s, Commit(c))
    ensures CoreInv(After(s, Commit(c)))
  {
    var s', next, frame := After(s, Commit(c)), s.pcs[c].next, s.pcs[c].frame;
    assert 0 <= next < s.n && (s.table[next].status.Waiting? || s.table[next].status.WaitingToStart?);
    hide ChosenInv;
    assert s'.table[..s.n] == Switched(s.table[..s.n], s.current[c], next, frame);
    hide OneCoreEach, Switched;
    SwitchedKeepsCores(s.table[..s.n], s.current, c, next, frame);
  }

  lemma CoresKeptByScan(s: State, c: nat)
    requires CoreInv(s) && Enabled(s, ScanOne(c)) && s.pcs[c].i < s.n
    ensures CoreInv(After(s, ScanOne(c)))
  {
    var s' := After(s, ScanOne(c));
    assert s'.n == s.n && s'.current == s.current && |s'.table| == |s.table|;
    forall i | 0 <= i < s.n ensures s'.table[..s.n][i].status == s.table[..s.n][i].status {
    }
    hide Enabled, After;
    SameStatusesKeepCores(Published(s), Published(s'));
  }

  lemma SameStatusesKeepCores(s: Sched, s': Sched)
    requires OneCoreEach(s) && s'.current == s.current && |s'.tasks| == |s.tasks|
    requires forall i | 0 <= i < |s.tasks| :: s'.tasks[i].status == s.tasks[i].status
    ensures OneCoreEach(s')
  {
  }

  lemma CoresKeptByPublish(s: State)
    requires CoreInv(s) && MakerInv(s) && Enabled(s, Publish)
    ensures CoreInv(After(s, Publish))
  {
    assert After(s, Publish).table[..s.n + 1] == s.table[..s.n] + [s.maker.task];
  }

  lemma CoresKept(s: State, a: Action)
    requires Base(s) && Enabled(s, a)
    ensures CoreInv(After(s, a))
  {
    hide LockInv, ScanInv, OneCoreEach, ChosenInv;
    match a
    case Commit(c) => CoresKeptByCommit(s, c);
    case Publish => CoresKeptByPublish(s);
    case ScanOne(c) => CoresKeptByScan(s, c);
    case Scribble(_) => BuildingIsInvisible(s, a);
    case FinishCopy => BuildingIsInvisible(s, a);
    case _ => assert After(s, a).table[..s.n] == s.table[..s.n];
  }

  lemma ChosenKeptByCommit(s: State, c: nat)
    requires LockInv(s) && ChosenInv(s) && Enabled(s, Commit(c))
    ensures ChosenInv(After(s, Commit(c)))
  {
    assert forall d | 0 <= d < |s.pcs| && d != c :: !s.pcs[d].Chosen?;
    hide LockInv;
  }

  lemma ChosenKeptByScan(s: State, a: Action)
    requires LockInv(s) && ChosenInv(s) && ScanInv(s) && Enabled(s, a) && (a.ScanOne? || a.ScanEnd?)
    ensures ChosenInv(After(s, a))
  {
    var c := a.c;
    assert forall d | 0 <= d < |s.pcs| && d != c :: !s.pcs[d].Chosen?;
    assert ScanningWell(s.table[..s.n], s.pcs[c].i, s.pcs[c].cnt, s.pcs[c].next);
    hide LockInv, ScanInv, NoneToStart;
  }

  lemma ChosenKeptByMaker(s: State, a: Action)
    requires MakerInv(s) && ChosenInv(s) && Enabled(s, a) && (a.Scribble? || a.FinishCopy? || a.Publish? || a.PickSlot?)
    ensures ChosenInv(After(s, a))
  {
  }

  lemma ChosenKept(s: State, a: Action)
    requires Base(s) && Enabled(s, a)
    ensures ChosenInv(After(s, a))
  {
    hide LockInv, MakerInv, ScanInv, CoreInv;
    match a
    case Commit(c) => ChosenKeptByCommit(s, c);
    case ScanOne(_) => ChosenKeptByScan(s, a);
    case ScanEnd(_) => ChosenKeptByScan(s, a);
    case PickSlot(_, _) => ChosenKeptByMaker(s, a);
    case Scribble(_) => ChosenKeptByMaker(s, a);
    case FinishCopy => ChosenKeptByMaker(s, a);
    case Publish => ChosenKeptByMaker(s, a);
    case _ =>
  }

  /* ---- the scan ---- */

  /** One step of the scan keeps the loop's invariant. */
  lemma ScanOneWell(tasks: seq<Task>, i: nat, cnt: nat, next: int)
    requires ScanningWell(tasks, i, cnt, next) && i < |tasks| && !tasks[i].status.WaitingToStart?
    ensures if tasks[i].status.Waiting?
            then var idle := tasks[i].idleTime;
                 ScanningWell(tasks[i := tasks[i].(idleTime := idle + 1)], i + 1,
                              if cnt < idle + 1 then idle + 1 else cnt, if cnt < idle + 1 then i else next)
                 && Unbumped(tasks[i := tasks[i].(idleTime := idle + 1)], i + 1) == Unbumped(tasks, i)
            else ScanningWell(tasks, i + 1, cnt, next) && Unbumped(tasks, i + 1) == Unbumped(tasks, i)
  {
    var t := tasks[i];
    var tasks' := if t.status.Waiting? then tasks[i := t.(idleTime := t.idleTime + 1)] else tasks;
    assert Unbumped(tasks', i + 1) == Unbumped(tasks, i);
  }

  /** The same step on the shared state: it goes on scanning, and undoing its counts gives the same table as before. */
  lemma ScanOneEffect(s: State, c: nat)
    requires ScanInv(s) && Enabled(s, ScanOne(c)) && !s.table[s.pcs[c].i].status.WaitingToStart?
    ensures var s' := After(s, ScanOne(c));
            && s'.n == s.n <= |s'.table| && s'.current == s.current && s'.pcs[c].Scanning?
            && ScanningWell(s'.table[..s.n], s'.pcs[c].i, s'.pcs[c].cnt, s'.pcs[c].next)
            && Unbumped(s'.table[..s.n], s'.pcs[c].i) == Unbumped(s.table[..s.n], s.pcs[c].i)
  {
    var i := s.pcs[c].i;
    assert ScanningWell(s.table[..s.n], i, s.pcs[c].cnt, s.pcs[c].next);
    hide ScanningWell, ScanInv, Unbumped, Longest, NoneToStart;
    ScanOneWell(s.table[..s.n], i, s.pcs[c].cnt, s.pcs[c].next);
    var s' := After(s, ScanOne(c));
    if s.table[i].status.Waiting? {
      assert s'.table[..s.n] == s.table[..s.n][i := s.table[i].(idleTime := s.table[i].idleTime + 1)];
    } else {
      assert s'.table[..s.n] == s.table[..s.n];
    }
    assert s'.n == s.n <= |s'.table| && s'.current == s.current && s'.pcs[c].Scanning? && s'.pcs[c].i == i + 1;
    hide Enabled;
  }

  lemma ScanKept(s: State, a: Action)
    requires Base(s) && Enabled(s, a)
    ensures ScanInv(After(s, a))
  {
    var s' := After(s, a);
    LockKept(s, a);
    MakerKept(s, a);
    forall c | 0 <= c < |s'.pcs| && s'.pcs[c].Scanning?
      ensures ScanningWell(s'.table[..s'.n], s'.pcs[c].i, s'.pcs[c].cnt, s'.pcs[c].next)
    {
      if a.ScanOne? && a.c == c {
        ScanOneEffect(s, c);
      } else if a.Check? && a.c == c {
        assert ScanningWell(s'.table[..s'.n], 0, 0, -1);
      } else {
        OtherScanKept(s, a, c);
      }
    }
  }

  lemma OtherScanKept(s: State, a: Action, c: nat)
    requires Base(s) && Enabled(s, a) && c < |s.pcs| && After(s, a).pcs[c].Scanning?
    requires !(a.ScanOne? && a.c == c) && !(a.Check? && a.c == c)
    ensures After(s, a).n <= |After(s, a).table| && After(s, a).pcs[c] == s.pcs[c]
    ensures var s' := After(s, a);
            ScanningWell(s'.table[..s'.n], s'.pcs[c].i, s'.pcs[c].cnt, s'.pcs[c].next)
  {
    var s' := After(s, a);
    assert s'.pcs[c] == s.pcs[c] && Holds(s.pcs[c]);
    assert ScanningWell(s.table[..s.n], s.pcs[c].i, s.pcs[c].cnt, s.pcs[c].next);
    hide ScanningWell, ScanInv;
    if a.Publish? {
      assert s'.table[..s'.n] == s.table[..s.n] + [s.maker.task];
      PublishKeepsScan(s.table[..s.n], s.maker.task, s.pcs[c].i, s.pcs[c].cnt, s.pcs[c].next);
    } else {
      assert s'.table[..s'.n] == s.table[..s.n];
    }
  }

  lemma PublishKeepsScan(tasks: seq<Task>, task: Task, i: nat, cnt: nat, next: int)
    requires ScanningWell(tasks, i, cnt, next)
    ensures ScanningWell(tasks + [task], i, cnt, next)
    ensures task.status.WaitingToStart? ==> Unbumped(tasks + [task], i) == Unbumped(tasks, i) + [task]
  {
  }

  lemma BaseKept(s: State, a: Action)
    requires Base(s) && Enabled(s, a)
    ensures Base(After(s, a))
  {
    LockKept(s, a);
    MakerKept(s, a);
    CoresKept(s, a);
    ChosenKept(s, a);
    ScanKept(s, a);
  }

  /* ---- refinement of the atomic scheduler ---- */

  /** The atomic operation that takes effect at a step, if any: a scheduler call when its scan ends (or when it
      finds no task published), a creation when it publishes. */
  ghost function OpsAt(s: State, a: Action): seq<Op>
    requires Enabled(s, a)
  {
    match a
    case Check(c) => if s.n == 0 then [SchedulerCall(c, s.pcs[c].frame, -1)] else []
    case ScanOne(c) =>
      if s.table[s.pcs[c].i].status.WaitingToStart? then [SchedulerCall(c, s.pcs[c].frame, s.pcs[c].i)] else []
    case ScanEnd(c) => [SchedulerCall(c, s.pcs[c].frame, s.pcs[c].next)]
    case Publish => [Creation(s.maker.task)]
    case _ => []
  }

  lemma AbsIs(s: State, c: nat)
    requires LockInv(s) && s.n <= |s.table| && c < |s.pcs| && Busy(s.pcs[c])
    ensures Abs(s) == AbsAt(s, c)
  {
    assert Holds(s.pcs[c]);
  }

  lemma AbsIsPublished(s: State)
    requires LockInv(s) && s.n <= |s.table| && forall c | 0 <= c < |s.pcs| :: !Busy(s.pcs[c])
    ensures Abs(s) == Published(s)
  {
  }

  /** Steps that neither touch the published state nor move a core into or out of its scan leave the view alone. */
  lemma AbsFramed(s: State, s': State)
    requires LockInv(s) && LockInv(s') && s.n == s'.n <= |s.table| && s'.n <= |s'.table|
    requires s'.table[..s.n] == s.table[..s.n] && s'.current == s.current && |s'.pcs| == |s.pcs|
    requires forall d | 0 <= d < |s.pcs| && (Busy(s.pcs[d]) || Busy(s'.pcs[d])) :: s'.pcs[d] == s.pcs[d]
    ensures Abs(s') == Abs(s)
  {
    if c: nat :| c < |s.pcs| && Busy(s.pcs[c]) {
      AbsIs(s, c);
      AbsIs(s', c);
    } else {
      AbsIsPublished(s);
      AbsIsPublished(s');
    }
  }

  /** What the steps outside the scan do to the view: nothing. */
  lemma QuietSteps(s: State, a: Action)
    requires Base(s) && Enabled(s, a)
    requires a.Interrupt? || a.Acquire? || a.Release? || a.Dispatch? || a.PickSlot? || a.Scribble? || a.FinishCopy?
    ensures Abs(After(s, a)) == Abs(s)
  {
    BaseKept(s, a);
    AbsFramed(s, After(s, a));
  }

  /** While core c holds the lock no other core is busy. */
  lemma OnlyHolderBusy(s: State, c: nat)
    requires LockInv(s) && c < |s.pcs| && Holds(s.pcs[c])
    ensures forall d | 0 <= d < |s.pcs| && d != c :: !Busy(s.pcs[d])
  {
    assert forall d | 0 <= d < |s.pcs| && Busy(s.pcs[d]) :: Holds(s.pcs[d]);
  }

  lemma CheckSimulates(s: State, c: nat)
    requires Base(s) && Enabled(s, Check(c))
    ensures Abs(After(s, Check(c))) == Abs(s)
    ensures s.n == 0 ==> Call(Abs(s), Abs(s), c, s.pcs[c].frame, -1)
  {
    var s' := After(s, Check(c));
    BaseKept(s, Check(c));
    OnlyHolderBusy(s, c);
    AbsIsPublished(s);
    if s.n == 0 {
      AbsIsPublished(s');
      assert Longest(s.table[..0], 0, -1, 0);
      assert Selection(s.table[..0], 0, -1);
      assert Abs(s) == AfterCall(Abs(s), 0, -1, c, s.pcs[c].frame);
    } else {
      AbsIs(s', c);
      assert Unbumped(s.table[..s.n], 0) == s.table[..s.n];
    }
  }

  /** Choosing a task is where the call takes effect. */
  lemma ChoiceSimulates(s: State, s': State, c: nat, stop: nat, next: nat)
    requires Base(s) && LockInv(s') && c < |s.pcs| && s.pcs[c].Scanning?
    requires s' == s.(pcs := s.pcs[c := Chosen(s.pcs[c].frame, next)]) && next < s.n
    requires stop == s.pcs[c].i && Selection(Unbumped(s.table[..s.n], stop), stop, next)
    ensures Call(Abs(s), Abs(s'), c, s.pcs[c].frame, next)
  {
    AbsIs(s, c);
    AbsIs(s', c);
    assert Bumped(Unbumped(s.table[..s.n], stop), stop) == s.table[..s.n];
    assert Abs(s') == AfterCall(Abs(s), stop, next, c, s.pcs[c].frame);
  }

  lemma ScanOneSimulates(s: State, c: nat)
    requires Base(s) && Enabled(s, ScanOne(c))
    ensures var s', Scanning(frame, i, _, _) := After(s, ScanOne(c)), s.pcs[c];
            if s.table[i].status.WaitingToStart? then Call(Abs(s), Abs(s'), c, frame, i) else Abs(s') == Abs(s)
  {
    var s' := After(s, ScanOne(c));
    var i := s.pcs[c].i;
    LockKept(s, ScanOne(c));
    if s.table[i].status.WaitingToStart? {
      StarterIsSelected(s, c);
      ChoiceSimulates(s, s', c, i, i);
    } else {
      hide ScanInv, MakerInv, CoreInv, ChosenInv;
      AbsIs(s, c);
      ScanOneEffect(s, c);
      AbsIs(s', c);
    }
  }

  lemma StarterIsSelected(s: State, c: nat)
    requires ScanInv(s) && Enabled(s, ScanOne(c)) && s.table[s.pcs[c].i].status.WaitingToStart?
    ensures Selection(Unbumped(s.table[..s.n], s.pcs[c].i), s.pcs[c].i, s.pcs[c].i)
  {
    assert ScanningWell(s.table[..s.n], s.pcs[c].i, s.pcs[c].cnt, s.pcs[c].next);
  }

  lemma ScanEndSimulates(s: State, c: nat)
    requires Base(s) && Enabled(s, ScanEnd(c))
    ensures Call(Abs(s), Abs(After(s, ScanEnd(c))), c, s.pcs[c].frame, s.pcs[c].next)
  {
    var s' := After(s, ScanEnd(c));
    var Scanning(frame, i, cnt, next) := s.pcs[c];
    BaseKept(s, ScanEnd(c));
    assert i == s.n && ScanningWell(s.table[..s.n], i, cnt, next);
    assert Selection(Unbumped(s.table[..s.n], i), i, next);
    if next == -1 {
      AbsIs(s, c);
      OnlyHolderBusy(s, c);
      AbsIsPublished(s');
      assert Unbumped(s.table[..s.n], i) == s.table[..s.n] == Bumped(s.table[..s.n], i);
      assert Abs(s') == AfterCall(Abs(s), i, -1, c, frame);
    } else {
      ChoiceSimulates(s, s', c, i, next);
    }
  }

  lemma CommitSimulates(s: State, c: nat)
    requires Base(s) && Enabled(s, Commit(c))
    ensures Abs(After(s, Commit(c))) == Abs(s)
  {
    var s' := After(s, Commit(c));
    BaseKept(s, Commit(c));
    AbsIs(s, c);
    OnlyHolderBusy(s, c);
    AbsIsPublished(s');
    assert s'.table[..s.n] == Switched(s.table[..s.n], s.current[c], s.pcs[c].next, s.pcs[c].frame);
  }

  lemma PublishSimulates(s: State)
    requires Base(s) && Enabled(s, Publish)
    ensures Create(Abs(s), Abs(After(s, Publish)), s.maker.task)
  {
    var s', task := After(s, Publish), s.maker.task;
    BaseKept(s, Publish);
    hide CoreInv;
    assert s'.table[..s'.n] == s.table[..s.n] + [task];
    hide LockInv, ScanInv, ChosenInv;
    if c: nat :| c < |s.pcs| && Busy(s.pcs[c]) {
      AbsIs(s, c);
      AbsIs(s', c);
      PublishUnderBusyCore(s, c);
    } else {
      AbsIsPublished(s);
      AbsIsPublished(s');
    }
  }

  lemma PublishUnderBusyCore(s: State, c: nat)
    requires Base(s) && Enabled(s, Publish) && c < |s.pcs| && Busy(s.pcs[c])
    ensures After(s, Publish).n <= |After(s, Publish).table|
    ensures Create(AbsAt(s, c), AbsAt(After(s, Publish), c), s.maker.task)
  {
    assert Published(s).tasks == s.table[..s.n] && s.current[c] < s.n;
    hide CoreInv;
    var task, before, after := s.maker.task, s.table[..s.n], After(s, Publish).table[..s.n + 1];
    assert after == before + [task];
    match s.pcs[c] {
      case Scanning(_, i, cnt, next) =>
        assert ScanningWell(before, i, cnt, next);
        hide LockInv, ScanInv;
        PublishKeepsScan(before, task, i, cnt, next);
      case Chosen(frame, next) =>
        hide LockInv, ScanInv;
        var last := s.current[c];
        assert Switched(before + [task], last, next, frame) == Switched(before, last, next, frame) + [task];
    }
  }

  /** Every interleaved step either takes effect as one atomic call or creation or changes nothing that counts. */
  lemma StepSimulates(s: State, a: Action)
    requires Base(s) && Enabled(s, a)
    ensures LockInv(After(s, a)) && After(s, a).n <= |After(s, a).table|
    ensures OpsAt(s, a) == [] ==> Abs(After(s, a)) == Abs(s)
    ensures OpsAt(s, a) != [] ==> |OpsAt(s, a)| == 1 && Step(Abs(s), Abs(After(s, a)), OpsAt(s, a)[0])
  {
    BaseKept(s, a);
    match a
    case Check(c) => CheckSimulates(s, c);
    case ScanOne(c) => ScanOneSimulates(s, c);
    case ScanEnd(c) => ScanEndSimulates(s, c);
    case Commit(c) => CommitSimulates(s, c);
    case Publish => PublishSimulates(s);
    case _ => QuietSteps(s, a);
  }

  /* ---- every run ---- */

  lemma InitBase(s: State)
    requires Init(s)
    ensures Base(s) && Abs(s) == Published(s) && Inv(Abs(s))
  {
    AbsIsPublished(s);
  }

  lemma InitRepresents(s: State)
    requires Init(s)
    ensures Base(s) && Represents(Abs(s), Fifo([], 0, 0, s.current))
  {
    InitBase(s);
  }

  /** A stretch of a run, from a state that satisfies the invariants. */
  ghost predicate Segment(ss: seq<State>, acts: seq<Action>) {
    Steps(ss, acts) && Base(ss[0]) && Inv(Abs(ss[0]))
  }

  /** In every reachable state: the lock excludes, the creator's slot is the first unpublished one, RUNNING means
      current on exactly one core, and the scheduler the steps add up to keeps its invariant. */
  lemma {:induction false} Safety(ss: seq<State>, acts: seq<Action>, k: nat)
    requires Segment(ss, acts) && k < |ss|
    ensures Base(ss[k]) && Inv(Abs(ss[k]))
  {
    hide Base, Inv, Enabled, After, OpsAt, Abs, Step;
    if k > 0 {
      Safety(ss, acts, k - 1);
      StepIsSafe(ss[k - 1], acts[k - 1]);
      assert ss[k - 1 + 1] == After(ss[k - 1], acts[k - 1]);
    }
  }

  lemma StepIsSafe(s: State, a: Action)
    requires Base(s) && Inv(Abs(s)) && Enabled(s, a)
    ensures Base(After(s, a)) && Inv(Abs(After(s, a)))
  {
    hide CoreInv, ChosenInv, ScanInv, Inv, Enabled, After, OpsAt, Abs, Step;
    BaseKept(s, a);
    StepSimulates(s, a);
    if OpsAt(s, a) != [] {
      StepKeepsInv(Abs(s), Abs(After(s, a)), OpsAt(s, a)[0]);
    }
  }

  /** No core is ever stuck: whatever line it is at, its next step can be taken, but for a core that waits for the lock,
      which can take it exactly when no other core is between lock and release. */
  lemma NoCoreIsStuck(s: State, c: nat)
    requires Base(s) && c < |s.pcs|
    ensures match s.pcs[c]
            case Outside => forall frame :: Enabled(s, Interrupt(c, frame))
            case Spinning(_) => Enabled(s, Acquire(c)) <==> forall d | 0 <= d < |s.pcs| :: !Holds(s.pcs[d])
            case Locked(_) => Enabled(s, Check(c))
            case Scanning(_, _, _, _) => Enabled(s, ScanOne(c)) || Enabled(s, ScanEnd(c))
            case Chosen(_, _) => Enabled(s, Commit(c))
            case Leaving => Enabled(s, Release(c))
            case Entering(_, _) => Enabled(s, Release(c))
            case Dispatching(_, _) => Enabled(s, Dispatch(c))
  {
    hide CoreInv, MakerInv;
  }

  /** Nor is the creator: with an unpublished slot left it can set out to create any task, and it can always go on. */
  lemma CreatorIsNotStuck(s: State, task: Task)
    requires Base(s) && task.status.WaitingToStart? && task.idleTime == 0 && task.kernelStack != 0
    ensures s.maker.Idle? && s.n < |s.table| ==> Enabled(s, PickSlot(s.n, task))
    ensures s.maker.Building? ==> Enabled(s, Scribble(task)) && Enabled(s, FinishCopy)
    ensures s.maker.Written? ==> Enabled(s, Publish)
  {
    hide CoreInv, ChosenInv, ScanInv, LockInv;
  }

  /** Every suffix of a run of the system is such a stretch. */
  lemma TailIsSegment(ss: seq<State>, acts: seq<Action>, j: nat)
    requires Trace(ss, acts) && j < |ss|
    ensures Segment(ss[j..], acts[j..])
  {
    InitBase(ss[0]);
    Safety(ss, acts, j);
    hide Base, Inv, After, Enabled;
    forall k | 0 <= k < |acts[j..]|
      ensures Enabled(ss[j..][k], acts[j..][k]) && ss[j..][k + 1] == After(ss[j..][k], acts[j..][k])
    {
      assert ss[j..][k] == ss[j + k] && acts[j..][k] == acts[j + k] && ss[j..][k + 1] == ss[j + k + 1];
    }
  }

  /** The operations that take effect over the first k steps of a stretch, in order. */
  ghost function OpsOf(ss: seq<State>, acts: seq<Action>, k: nat): seq<Op>
    requires Steps(ss, acts) && k <= |acts|
  {
    if k == 0 then [] else OpsOf(ss, acts, k - 1) + OpsAt(ss[k - 1], acts[k - 1])
  }

  /** Every interleaved stretch is an atomic run of exactly those operations. */
  lemma {:induction false} RunIsAtomic(ss: seq<State>, acts: seq<Action>, k: nat) returns (abs: seq<Sched>)
    requires Segment(ss, acts) && k <= |acts|
    ensures Base(ss[0]) && Base(ss[k])
    ensures Run(abs, OpsOf(ss, acts, k)) && abs[0] == Abs(ss[0]) && abs[|abs| - 1] == Abs(ss[k])
  {
    hide CoreInv, ChosenInv, ScanInv, Inv, Enabled, After, OpsAt, Abs, Step;
    Safety(ss, acts, k);
    if k == 0 {
      abs := [Abs(ss[0])];
    } else {
      abs := RunIsAtomic(ss, acts, k - 1);
      Safety(ss, acts, k - 1);
      StepSimulates(ss[k - 1], acts[k - 1]);
      assert ss[k - 1 + 1] == After(ss[k - 1], acts[k - 1]);
      if OpsAt(ss[k - 1], acts[k - 1]) != [] {
        abs := abs + [Abs(ss[k])];
      }
    }
  }

  /** No starvation under any interleaving: a task waiting at the start of a stretch with r tasks ahead of it is
      dispatched by the time r calls, plus one for each creation, plus one more have taken effect, on whatever
      cores they run; until then its idle time stays below the number of tasks. */
  lemma NoStarvation(ss: seq<State>, acts: seq<Action>, k: nat, t: nat)
    requires Segment(ss, acts) && k <= |acts|
    requires t < |Abs(ss[0]).tasks| && Abs(ss[0]).tasks[t].status.Waiting?
    ensures Base(ss[k])
    ensures var ops := OpsOf(ss, acts, k);
            && (Calls(ops) > |Ahead(Abs(ss[0]), t)| + Creations(ops) ==> Dispatched(ops, t))
            && (!Dispatched(ops, t) ==>
                  t < |Abs(ss[k]).tasks| && Abs(ss[k]).tasks[t].idleTime <= |Abs(ss[k]).tasks| - 2)
  {
    var abs := RunIsAtomic(ss, acts, k);
    BoundedWaiting(abs, OpsOf(ss, acts, k), t);
  }

  /** New tasks start strictly in turn under any interleaving: with p tasks started at the start of a stretch, the task
      at index t >= p is dispatched in it if and only if more than t - p calls take effect. */
  lemma NewTasksStartInTurnIff(ss: seq<State>, acts: seq<Action>, k: nat, t: nat, p: nat)
    requires Segment(ss, acts) && k <= |acts|
    requires StartedCount(Abs(ss[0]), p) && p <= t < |Abs(ss[0]).tasks|
    ensures Dispatched(OpsOf(ss, acts, k), t) <==> Calls(OpsOf(ss, acts, k)) > t - p
  {
    hide Base, Inv, Enabled, After, OpsOf, Abs, StartedCount;
    var abs := RunIsAtomic(ss, acts, k);
    StartsInTurnIff(abs, OpsOf(ss, acts, k), t, p);
  }

  /** Every interleaved run is a run of the queue: some queue state represents each state of the run, and it moves
      only by an abstract call or an abstract creation, exactly when one takes effect. */
  lemma {:induction false} RunRefinesFifo(ss: seq<State>, acts: seq<Action>, k: nat) returns (fs: seq<Fifo>)
    requires Trace(ss, acts) && k < |ss|
    ensures |fs| == k + 1 && fs[0] == Fifo([], 0, 0, ss[0].current)
    ensures forall j | 0 <= j <= k :: Base(ss[j]) && Represents(Abs(ss[j]), fs[j])
    ensures forall j | 0 <= j < k :: FifoMoves(fs[j], fs[j + 1], OpsAt(ss[j], acts[j]))
  {
    hide MakerInv, CoreInv, ChosenInv, ScanInv, Inv, Enabled, After, OpsAt, Abs, Represents, FifoMoves, Init;
    if k == 0 {
      InitRepresents(ss[0]);
      fs := [Fifo([], 0, 0, ss[0].current)];
    } else {
      var before := RunRefinesFifo(ss, acts, k - 1);
      InitBase(ss[0]);
      Safety(ss, acts, k - 1);
      Safety(ss, acts, k);
      var f := StepRefinesFifo(ss[k - 1], acts[k - 1], before[k - 1]);
      assert ss[k - 1 + 1] == After(ss[k - 1], acts[k - 1]);
      fs := before + [f];
      forall j | 0 <= j < k ensures FifoMoves(fs[j], fs[j + 1], OpsAt(ss[j], acts[j])) {
        assert fs[j] == before[j];
        assert j < k - 1 ==> fs[j + 1] == before[j + 1];
      }
    }
  }

  ghost predicate FifoMoves(f: Fifo, f': Fifo, ops: seq<Op>) {
    if |ops| != 1 then f' == f
    else match ops[0]
         case SchedulerCall(core, _, next) => core < |f.current| && next == Front(f) && f' == FifoCall(f, core)
         case Creation(_) => f' == FifoCreate(f)
  }

  lemma StepRefinesFifo(s: State, a: Action, f: Fifo) returns (f': Fifo)
    requires Base(s) && Inv(Abs(s)) && Enabled(s, a) && Represents(Abs(s), f)
    ensures LockInv(After(s, a)) && After(s, a).n <= |After(s, a).table|
    ensures Represents(Abs(After(s, a)), f') && FifoMoves(f, f', OpsAt(s, a))
  {
    StepSimulates(s, a);
    f' := f;
    if OpsAt(s, a) != [] {
      match OpsAt(s, a)[0] {
        case SchedulerCall(core, frame, next) =>
          CallDispatchesFront(Abs(s), Abs(After(s, a)), core, frame, next, f);
          CallRefinesFifo(Abs(s), Abs(After(s, a)), core, frame, next, f);
          f' := FifoCall(f, core);
        case Creation(task) =>
          CreateRefinesFifo(Abs(s), Abs(After(s, a)), task, f);
          f' := FifoCreate(f);
      }
    }
  }
}
