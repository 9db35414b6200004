/** Context preservation over every interleaving: what a task is started or resumed with is what it was created with
    or what was last saved for it, although that frame is read after the scheduler's lock has been released. */
module SchedulerContexts {
  import opened Words
  import opened Scheduler
  import opened SchedulerQueue
  import opened SchedulerRuns
  import opened SchedulerSafety

  /** The life of one task: created, on a core, parked with its saved frame. Broken is any event out of turn. */
  datatype Life = Unborn | Fresh(regs: Regs, entry: u64) | On(c: nat) | Parked(frame: Regs) | Broken

  function Advance(life: Life, e: Event, t: int): Life {
    if e.t != t then life
    else match e
         case Created(_, regs, entry) => if life.Unborn? then Fresh(regs, entry) else Broken
         case Started(_, c, regs, entry) => if life == Fresh(regs, entry) then On(c) else Broken
         case Saved(_, c, frame) => if life == On(c) then Parked(frame) else Broken
         case Resumed(_, c, frame) => if life == Parked(frame) then On(c) else Broken
  }

  function LifeOf(log: seq<Event>, t: int): Life {
    if log == [] then Unborn else Advance(LifeOf(log[..|log| - 1], t), log[|log| - 1], t)
  }

  lemma LifeOfMore(log: seq<Event>, e: Event, t: int)
    ensures LifeOf(log + [e], t) == Advance(LifeOf(log, t), e, t)
  {
    assert (log + [e])[..|log|] == log;
  }

  /** The life of the current task of core c, given where the core is. */
  ghost predicate CurrentLife(s: State, c: nat, t: nat)
    requires c < |s.pcs| && t < |s.table|
  {
    var life := LifeOf(s.log, t);
    match s.pcs[c]
    case Entering(_, first) => life == Ready(s.table[t], first)
    case Dispatching(_, first) => life == Ready(s.table[t], first)
    case _ => life == On(c)
  }

  function Ready(t: Task, first: bool): Life {
    if first then Fresh(t.regs, t.entryPoint) else Parked(t.regs)
  }

  /** The life of a task that is not on a core, by its status; slots not published have none. */
  ghost predicate OffCoreLife(s: State, t: int) {
    var life := LifeOf(s.log, t);
    if !(0 <= t < s.n && t < |s.table|) then life.Unborn?
    else match s.table[t].status
         case WaitingToStart => life == Ready(s.table[t], true)
         case Waiting => life == Ready(s.table[t], false)
         case Running => true
         case Unused => false
  }

  ghost predicate LifeInv(s: State) {
    && s.n <= |s.table| && |s.pcs| == |s.current|
    && (forall t :: OffCoreLife(s, t))
    && forall c | 0 <= c < |s.current| && 0 <= s.current[c] < s.n :: CurrentLife(s, c, s.current[c])
  }

  lemma CommitKeepsLives(s: State, c: nat)
    requires Base(s) && LifeInv(s) && Enabled(s, Commit(c))
    ensures LifeInv(After(s, Commit(c)))
  {
    hide MakerInv, ScanInv;
    var s' := After(s, Commit(c));
    var last, next, frame := s.current[c], s.pcs[c].next, s.pcs[c].frame;
    assert s.n <= |s.table| && 0 <= next < s.n;
    assert Published(s).current == s.current && Published(s).tasks == s.table[..s.n];
    forall t: int ensures LifeOf(s'.log, t) == if t == last && last != -1 then Parked(frame) else LifeOf(s.log, t) {
      if last == -1 {
        assert s'.log == s.log;
      } else {
        assert CurrentLife(s, c, last);
        LifeOfMore(s.log, Saved(last, c, frame), t);
      }
    }
    forall t ensures OffCoreLife(s', t) {
      assert OffCoreLife(s, t);
    }
    forall d | 0 <= d < |s.current| && 0 <= s'.current[d] < s.n ensures CurrentLife(s', d, s'.current[d]) {
      if d != c {
        assert CurrentLife(s, d, s.current[d]);
        assert s.current[d] != last;
      } else {
        assert OffCoreLife(s, next);
      }
    }
  }

  lemma DispatchKeepsLives(s: State, c: nat)
    requires Base(s) && LifeInv(s) && Enabled(s, Dispatch(c))
    ensures LifeInv(After(s, Dispatch(c)))
  {
    hide LockInv, MakerInv, ScanInv;
    var s' := After(s, Dispatch(c));
    var Dispatching(next, first) := s.pcs[c];
    assert s.current[c] == next && CurrentLife(s, c, next);
    assert Published(s).tasks == s.table[..s.n];
    forall t: int ensures LifeOf(s'.log, t) == if t == next then On(c) else LifeOf(s.log, t) {
      LifeOfMore(s.log, s'.log[|s.log|], t);
    }
    forall t ensures OffCoreLife(s', t) {
      assert OffCoreLife(s, t);
    }
    forall d | 0 <= d < |s.current| && 0 <= s'.current[d] < s.n ensures CurrentLife(s', d, s'.current[d]) {
      if d != c {
        assert CurrentLife(s, d, s.current[d]);
        assert s.current[d] != next;
      }
    }
  }

  lemma PublishKeepsLives(s: State)
    requires Base(s) && LifeInv(s) && Enabled(s, Publish)
    ensures LifeInv(After(s, Publish))
  {
    var s' := After(s, Publish);
    forall t: int ensures LifeOf(s'.log, t) == Advance(LifeOf(s.log, t), s'.log[|s.log|], t) {
      LifeOfMore(s.log, s'.log[|s.log|], t);
    }
    assert Published(s).current == s.current;
    forall t ensures OffCoreLife(s', t) {
      assert OffCoreLife(s, t);
    }
    forall d | 0 <= d < |s.current| && 0 <= s'.current[d] < s'.n ensures CurrentLife(s', d, s'.current[d]) {
      assert CurrentLife(s, d, s.current[d]);
    }
  }

  /** Steps that write no event and touch no published frame keep every life. */
  lemma QuietKeepsLives(s: State, a: Action)
    requires Base(s) && LifeInv(s) && Enabled(s, a) && !a.Commit? && !a.Dispatch? && !a.Publish?
    ensures LifeInv(After(s, a))
  {
    hide LifeInv, LockInv, ScanInv, CoreInv, MakerInv, ChosenInv;
    if a.PickSlot? || a.Scribble? || a.FinishCopy? {
      MakerKeepsLives(s, a);
    } else {
      QuietCoreKeepsLives(s, a);
    }
  }

  lemma MakerKeepsLives(s: State, a: Action)
    requires MakerInv(s) && LifeInv(s) && Enabled(s, a) && (a.PickSlot? || a.Scribble? || a.FinishCopy?)
    ensures LifeInv(After(s, a))
  {
    var s' := After(s, a);
    assert s'.log == s.log && s'.pcs == s.pcs && s'.current == s.current && s'.n == s.n && |s'.table| == |s.table|;
    assert forall t | 0 <= t < s.n :: s'.table[t] == s.table[t];
    hide MakerInv, Enabled, After;
    forall t ensures OffCoreLife(s', t) {
      assert OffCoreLife(s, t);
    }
    forall d | 0 <= d < |s.current| && 0 <= s'.current[d] < s'.n ensures CurrentLife(s', d, s'.current[d]) {
      assert CurrentLife(s, d, s.current[d]);
    }
  }

  lemma QuietCoreKeepsLives(s: State, a: Action)
    requires ChosenInv(s) && LifeInv(s) && Enabled(s, a)
    requires a.Interrupt? || a.Acquire? || a.Check? || a.ScanOne? || a.ScanEnd? || a.Release?
    ensures LifeInv(After(s, a))
  {
    var s' := After(s, a);
    assert s'.log == s.log && s'.current == s.current && s'.n == s.n && |s'.table| == |s.table|;
    forall t ensures OffCoreLife(s', t) {
      assert OffCoreLife(s, t);
    }
    forall d | 0 <= d < |s.current| && 0 <= s'.current[d] < s'.n ensures CurrentLife(s', d, s'.current[d]) {
      assert CurrentLife(s, d, s.current[d]);
    }
  }

  lemma LivesKept(s: State, a: Action)
    requires Base(s) && LifeInv(s) && Enabled(s, a)
    ensures LifeInv(After(s, a))
  {
    match a
    case Commit(c) => CommitKeepsLives(s, c);
    case Dispatch(c) => DispatchKeepsLives(s, c);
    case Publish => PublishKeepsLives(s);
    case _ => QuietKeepsLives(s, a);
  }

  lemma {:induction false} LivesInvariant(ss: seq<State>, acts: seq<Action>, k: nat)
    requires Trace(ss, acts) && k < |ss|
    ensures LifeInv(ss[k])
  {
    if k > 0 {
      LivesInvariant(ss, acts, k - 1);
      InitBase(ss[0]);
      Safety(ss, acts, k - 1);
      LivesKept(ss[k - 1], acts[k - 1]);
      assert ss[k - 1 + 1] == After(ss[k - 1], acts[k - 1]);
    }
  }

  /** No event of any task is ever out of turn, in any run with any number of cores. */
  lemma NoLifeBreaks(ss: seq<State>, acts: seq<Action>, k: nat, t: int)
    requires Trace(ss, acts) && k < |ss|
    ensures !LifeOf(ss[k].log, t).Broken?
  {
    var s := ss[k];
    LivesInvariant(ss, acts, k);
    InitBase(ss[0]);
    Safety(ss, acts, k);
    assert OffCoreLife(s, t);
    if 0 <= t < s.n && s.table[t].status.Running? {
      assert Published(s).tasks[t].status.Running?;
      var c :| 0 <= c < |s.current| && s.current[c] == t;
      assert CurrentLife(s, c, t);
    }
  }

  lemma {:induction false} BrokenStays(log: seq<Event>, k: nat, t: int)
    requires k <= |log| && LifeOf(log[..k], t).Broken?
    ensures LifeOf(log, t).Broken?
  {
    if k < |log| {
      assert log[..|log| - 1][..k] == log[..k];
      BrokenStays(log[..|log| - 1], k, t);
    } else {
      assert log[..k] == log;
    }
  }

  /** Event j is the last one of task t before event k. */
  ghost predicate LastOf(log: seq<Event>, t: int, j: int, k: int) {
    0 <= j < k <= |log| && log[j].t == t && forall i | j < i < k :: log[i].t != t
  }

  lemma {:induction false} ParkedBySave(log: seq<Event>, t: int, frame: Regs) returns (j: nat)
    requires LifeOf(log, t) == Parked(frame)
    ensures LastOf(log, t, j, |log|) && log[j].Saved? && log[j].frame == frame
  {
    var last := |log| - 1;
    if log[last].t == t {
      j := last;
    } else {
      j := ParkedBySave(log[..last], t, frame);
    }
  }

  /** The frame a core resumes a task with is the frame last saved for that task, by whichever core, with nothing
      done to the task in between. */
  lemma ResumeUsesLastSave(ss: seq<State>, acts: seq<Action>, k: nat, e: nat) returns (j: nat)
    requires Trace(ss, acts) && k < |ss| && e < |ss[k].log| && ss[k].log[e].Resumed?
    ensures LastOf(ss[k].log, ss[k].log[e].t, j, e)
    ensures ss[k].log[j].Saved? && ss[k].log[j].frame == ss[k].log[e].frame
  {
    var log, t := ss[k].log, ss[k].log[e].t;
    NoLifeBreaks(ss, acts, k, t);
    if LifeOf(log[..e + 1], t).Broken? {
      BrokenStays(log, e + 1, t);
    }
    assert log[..e + 1] == log[..e] + [log[e]];
    LifeOfMore(log[..e], log[e], t);
    j := ParkedBySave(log[..e], t, log[e].frame);
  }

  lemma {:induction false} FreshByCreation(log: seq<Event>, t: int, regs: Regs, entry: u64) returns (j: nat)
    requires LifeOf(log, t) == Fresh(regs, entry)
    ensures LastOf(log, t, j, |log|) && log[j] == Created(t, regs, entry)
  {
    var last := |log| - 1;
    if log[last].t == t {
      j := last;
    } else {
      j := FreshByCreation(log[..last], t, regs, entry);
    }
  }

  /** A task is started once, with the frame and entry point it was created with. */
  lemma StartUsesCreation(ss: seq<State>, acts: seq<Action>, k: nat, e: nat) returns (j: nat)
    requires Trace(ss, acts) && k < |ss| && e < |ss[k].log| && ss[k].log[e].Started?
    ensures var log, s := ss[k].log, ss[k].log[e];
            LastOf(log, s.t, j, e) && log[j] == Created(s.t, s.regs, s.entry)
  {
    var log, t := ss[k].log, ss[k].log[e].t;
    NoLifeBreaks(ss, acts, k, t);
    if LifeOf(log[..e + 1], t).Broken? {
      BrokenStays(log, e + 1, t);
    }
    assert log[..e + 1] == log[..e] + [log[e]];
    LifeOfMore(log[..e], log[e], t);
    j := FreshByCreation(log[..e], t, log[e].regs, log[e].entry);
  }

  /* ---- from the interrupt to the frame saved ---- */

  /** Step i is the last interrupt of core c before step k, it brought this frame, and the core's task has not changed
      since. */
  ghost predicate BroughtBy(ss: seq<State>, acts: seq<Action>, k: nat, c: nat, frame: Regs, i: nat) {
    && i < k < |ss| && k <= |acts| && acts[i] == Interrupt(c, frame)
    && (forall j | i < j < k && acts[j].Interrupt? :: acts[j].c != c)
    && c < |ss[i].current| && c < |ss[k].current| && ss[i].current[c] == ss[k].current[c]
  }

  /** The core holds the frame of an interrupt that it has not saved yet. */
  predicate HoldsFrame(pc: Pc) {
    pc.Spinning? || pc.Locked? || pc.Scanning? || pc.Chosen?
  }

  /** In every reachable state the frame a core holds is the one that its last interrupt brought. */
  lemma {:induction false} FrameIsBrought(ss: seq<State>, acts: seq<Action>, k: nat, c: nat) returns (i: nat)
    requires Trace(ss, acts) && k < |ss| && c < |ss[k].pcs| && HoldsFrame(ss[k].pcs[c])
    ensures BroughtBy(ss, acts, k, c, ss[k].pcs[c].frame, i)
    decreases k
  {
    SameCores(ss, acts, k);
    if k > 0 {
      var s, a := ss[k - 1], acts[k - 1];
      SameCores(ss, acts, k - 1);
      assert Enabled(s, a) && ss[k - 1 + 1] == After(s, a);
      if a.Interrupt? && a.c == c {
        i := k - 1;
      } else {
        FrameStays(s, a, c);
        i := FrameIsBrought(ss, acts, k - 1, c);
      }
    }
  }

  lemma {:induction false} SameCores(ss: seq<State>, acts: seq<Action>, k: nat)
    requires Trace(ss, acts) && k < |ss|
    ensures |ss[k].pcs| == |ss[k].current| == |ss[0].pcs|
  {
    if k > 0 {
      SameCores(ss, acts, k - 1);
      assert ss[k - 1 + 1] == After(ss[k - 1], acts[k - 1]);
    }
  }

  lemma FrameStays(s: State, a: Action, c: nat)
    requires Enabled(s, a) && c < |s.pcs| == |s.current| && HoldsFrame(After(s, a).pcs[c])
    requires !(a.Interrupt? && a.c == c)
    ensures HoldsFrame(s.pcs[c]) && After(s, a).pcs[c].frame == s.pcs[c].frame
    ensures After(s, a).current[c] == s.current[c]
  {
  }

  /** What a step saves for a task is what the last interrupt of that core brought, while it ran that task. */
  lemma SavedIsInterrupted(ss: seq<State>, acts: seq<Action>, k: nat, e: nat) returns (i: nat)
    requires Trace(ss, acts) && k < |acts| && |ss[k].log| <= e < |ss[k + 1].log| && ss[k + 1].log[e].Saved?
    ensures var saved := ss[k + 1].log[e];
            BroughtBy(ss, acts, k, saved.c, saved.frame, i) && ss[i].current[saved.c] == saved.t
  {
    assert ss[k + 1] == After(ss[k], acts[k]) && Enabled(ss[k], acts[k]);
    i := FrameIsBrought(ss, acts, k, acts[k].c);
  }

  /** A scheduler call takes effect with the frame of the last interrupt of its core. */
  lemma CallIsInterrupted(ss: seq<State>, acts: seq<Action>, k: nat, c: nat, frame: Regs, next: int) returns (i: nat)
    requires Trace(ss, acts) && k < |acts| && Enabled(ss[k], acts[k])
    requires OpsAt(ss[k], acts[k]) == [SchedulerCall(c, frame, next)]
    ensures BroughtBy(ss, acts, k, c, frame, i)
  {
    i := FrameIsBrought(ss, acts, k, c);
  }

  /** Every event of a run was written by some step. */
  lemma {:induction false} WrittenBy(ss: seq<State>, acts: seq<Action>, k: nat, e: nat) returns (i: nat)
    requires Steps(ss, acts) && k < |ss| && ss[0].log == [] && e < |ss[k].log|
    ensures i < k && |ss[i].log| <= e < |ss[i + 1].log| && ss[i + 1].log[e] == ss[k].log[e]
    decreases k
  {
    assert k > 0;
    LogGrows(ss[k - 1], acts[k - 1]);
    assert ss[k - 1 + 1] == After(ss[k - 1], acts[k - 1]);
    if e < |ss[k - 1].log| {
      assert ss[k].log[e] == ss[k].log[..|ss[k - 1].log|][e];
      i := WrittenBy(ss, acts, k - 1, e);
    } else {
      i := k - 1;
    }
  }

  /** Context preservation from end to end: the frame a core resumes a task with is the one that the last interrupt
      brought, on whichever core was running the task when it was displaced; between that save and the resumption
      nothing happens to the task. */
  lemma ResumeUsesInterrupted(ss: seq<State>, acts: seq<Action>, k: nat, e: nat) returns (j: nat, save: nat, i: nat)
    requires Trace(ss, acts) && k < |ss| && e < |ss[k].log| && ss[k].log[e].Resumed?
    ensures var log := ss[k].log;
            && LastOf(log, log[e].t, j, e) && log[j].Saved? && save < k
            && BroughtBy(ss, acts, save, log[j].c, log[e].frame, i)
            && ss[i].current[log[j].c] == log[e].t
  {
    j := ResumeUsesLastSave(ss, acts, k, e);
    save := WrittenBy(ss, acts, k, j);
    i := SavedIsInterrupted(ss, acts, save, j);
  }

  /** What is published is what the creator set out to create: the task that becomes visible is, in every field, the one
      that the last choice of a slot was made for. */
  lemma PublishedIsPicked(ss: seq<State>, acts: seq<Action>, k: nat) returns (i: nat)
    requires Trace(ss, acts) && k < |acts| && acts[k].Publish?
    ensures i < k && acts[i].PickSlot? && (forall j | i < j < k :: !acts[j].PickSlot?)
    ensures ss[k].n < |ss[k + 1].table| && ss[k + 1].n == ss[k].n + 1 && ss[k + 1].table[ss[k].n] == acts[i].task
    ensures var log := ss[k + 1].log;
            log == ss[k].log + [Created(ss[k].n, acts[i].task.regs, acts[i].task.entryPoint)]
  {
    assert Enabled(ss[k], acts[k]) && ss[k + 1] == After(ss[k], acts[k]);
    InitBase(ss[0]);
    Safety(ss, acts, k);
    i := MakingIsPicked(ss, acts, k);
  }

  lemma {:induction false} MakingIsPicked(ss: seq<State>, acts: seq<Action>, k: nat) returns (i: nat)
    requires Trace(ss, acts) && k < |ss| && !ss[k].maker.Idle?
    ensures i < k && acts[i].PickSlot? && (forall j | i < j < k :: !acts[j].PickSlot?)
    ensures acts[i].task == ss[k].maker.task
    decreases k
  {
    if k > 0 {
      var s, a := ss[k - 1], acts[k - 1];
      assert Enabled(s, a) && ss[k - 1 + 1] == After(s, a);
      if a.PickSlot? {
        i := k - 1;
      } else {
        i := MakingIsPicked(ss, acts, k - 1);
      }
    }
  }

  /* ---- from the choice to the dispatch ---- */

  predicate IsDispatch(e: Event, c: nat) {
    (e.Started? || e.Resumed?) && e.c == c
  }

  /** From event `from` on, core c has not started or resumed anything. */
  ghost predicate NoDispatch(log: seq<Event>, from: nat, c: nat) {
    forall e | from <= e < |log| :: !IsDispatch(log[e], c)
  }

  /** From event `from` on, the first task that core c starts or resumes is t. */
  ghost predicate DispatchesFirst(log: seq<Event>, from: nat, c: nat, t: int) {
    exists e :: from <= e < |log| && IsDispatch(log[e], c) && log[e].t == t && NoDispatch(log[..e], from, c)
  }

  /** The core has chosen t and not yet entered it. */
  predicate OnItsWay(pc: Pc, t: int) {
    (pc.Chosen? || pc.Entering? || pc.Dispatching?) && pc.next == t
  }

  lemma ChoiceMade(s: State, a: Action, c: nat, frame: Regs, t: int)
    requires Enabled(s, a) && OpsAt(s, a) == [SchedulerCall(c, frame, t)] && t != -1
    ensures c < |After(s, a).pcs| && After(s, a).log == s.log && OnItsWay(After(s, a).pcs[c], t)
  {
  }

  lemma StepOnItsWay(s: State, a: Action, from: nat, c: nat, t: int)
    requires Enabled(s, a) && c < |s.pcs| && from <= |s.log|
    requires DispatchesFirst(s.log, from, c, t) || (NoDispatch(s.log, from, c) && OnItsWay(s.pcs[c], t))
    ensures var s' := After(s, a);
            && |s'.pcs| == |s.pcs| && from <= |s'.log|
            && (DispatchesFirst(s'.log, from, c, t) || (NoDispatch(s'.log, from, c) && OnItsWay(s'.pcs[c], t)))
  {
    var s' := After(s, a);
    LogGrows(s, a);
    if DispatchesFirst(s.log, from, c, t) {
      var e :| from <= e < |s.log| && IsDispatch(s.log[e], c) && s.log[e].t == t && NoDispatch(s.log[..e], from, c);
      assert s'.log[..e] == s.log[..e] && s'.log[e] == s.log[e];
    } else if a.Dispatch? && a.c == c {
      var e := |s.log|;
      assert s'.log[..e] == s.log && IsDispatch(s'.log[e], c) && s'.log[e].t == t;
    } else {
      assert forall e | from <= e < |s.log| :: s'.log[e] == s.log[e];
    }
  }

  lemma LogGrows(s: State, a: Action)
    requires Enabled(s, a)
    ensures |s.log| <= |After(s, a).log| <= |s.log| + 1 && After(s, a).log[..|s.log|] == s.log
  {
  }

  /** Every call that chooses a task dispatches it: from then on the first task that the core starts or resumes is the
      one chosen, and until it does so the core is on its way to it, at no other line. */
  lemma {:induction false} ChoiceIsDispatched(ss: seq<State>, acts: seq<Action>, k: nat, m: nat, c: nat, frame: Regs,
                                              t: int)
    requires Steps(ss, acts) && k < m < |ss| && OpsAt(ss[k], acts[k]) == [SchedulerCall(c, frame, t)] && t != -1
    ensures c < |ss[m].pcs| && |ss[k].log| <= |ss[m].log|
    ensures DispatchesFirst(ss[m].log, |ss[k].log|, c, t)
            || (NoDispatch(ss[m].log, |ss[k].log|, c) && OnItsWay(ss[m].pcs[c], t))
    decreases m
  {
    hide Enabled, After, OpsAt, DispatchesFirst, OnItsWay;
    var from := |ss[k].log|;
    assert ss[m - 1 + 1] == After(ss[m - 1], acts[m - 1]);
    if m == k + 1 {
      ChoiceMade(ss[k], acts[k], c, frame, t);
      assert NoDispatch(ss[m].log, from, c);
    } else {
      ChoiceIsDispatched(ss, acts, k, m - 1, c, frame, t);
      hide NoDispatch;
      StepOnItsWay(ss[m - 1], acts[m - 1], from, c, t);
    }
  }
}
