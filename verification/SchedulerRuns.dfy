/** The multi-core scheduler of kernel/sched/scheduler.c as a state machine: any number of cores and one creator,
    interleaved at every access to shared state. The lock is a test-and-set byte, the scan reads and counts one
    task at a time, and the frame of a dispatched task is read after the lock has been released. */
module SchedulerRuns {
  import opened Words
  import opened Scheduler

  /** Where a core is in `schedulerMain`. */
  datatype Pc =
    | Outside                                              // running a task, or idle
    | Spinning(frame: Regs)                                // line 25
    | Locked(frame: Regs)                                  // line 27
    | Scanning(frame: Regs, i: nat, cnt: nat, next: int)   // lines 33 to 45
    | Chosen(frame: Regs, next: int)                       // lines 47 to 62 or 68
    | Leaving                                              // line 74
    | Entering(next: int, first: bool)                     // line 63 or 69
    | Dispatching(next: int, first: bool)                  // line 64 or 70

  /** Where the creator is in `createNewTask`: not in it, writing the slot it found, or about to publish. */
  datatype Maker = Idle | Building(index: nat, task: Task) | Written(index: nat, task: Task)

  /** What a run shows of each task's contexts. */
  datatype Event =
    | Created(t: int, regs: Regs, entry: u64)
    | Started(t: int, c: nat, regs: Regs, entry: u64)
    | Saved(t: int, c: nat, frame: Regs)
    | Resumed(t: int, c: nat, frame: Regs)

  datatype State = State(table: seq<Task>, n: nat, current: seq<int>, lock: bool, pcs: seq<Pc>, maker: Maker,
                         log: seq<Event>)

  datatype Action =
    | Interrupt(c: nat, frame: Regs)
    | Acquire(c: nat)
    | Check(c: nat)
    | ScanOne(c: nat)
    | ScanEnd(c: nat)
    | Commit(c: nat)
    | Release(c: nat)
    | Dispatch(c: nat)
    | PickSlot(index: nat, task: Task)
    | Scribble(junk: Task)      // part of the structure copy has reached the slot
    | FinishCopy
    | Publish

  predicate OnCore(s: State, c: nat) {
    c < |s.pcs| && c < |s.current|
  }

  ghost predicate Enabled(s: State, a: Action) {
    match a
    case Interrupt(c, frame) => OnCore(s, c) && s.pcs[c].Outside?
    case Acquire(c) => OnCore(s, c) && s.pcs[c].Spinning? && !s.lock
    case Check(c) => OnCore(s, c) && s.pcs[c].Locked?
    case ScanOne(c) => OnCore(s, c) && s.pcs[c].Scanning? && s.pcs[c].i < s.n && s.pcs[c].i < |s.table|
    case ScanEnd(c) => OnCore(s, c) && s.pcs[c].Scanning? && s.pcs[c].i >= s.n
    case Commit(c) => OnCore(s, c) && s.pcs[c].Chosen? && 0 <= s.pcs[c].next < |s.table|
    case Release(c) => OnCore(s, c) && (s.pcs[c].Leaving? || s.pcs[c].Entering?)
    case Dispatch(c) => OnCore(s, c) && s.pcs[c].Dispatching? && 0 <= s.pcs[c].next < |s.table|
    case PickSlot(index, task) =>
      && s.maker.Idle? && task.status.WaitingToStart? && task.idleTime == 0 && task.kernelStack != 0
      && index < |s.table| && s.table[index].kernelStack == 0
      && forall i | 0 <= i < index :: s.table[i].kernelStack != 0
    case Scribble(_) => s.maker.Building? && s.maker.index < |s.table|
    case FinishCopy => s.maker.Building? && s.maker.index < |s.table|
    case Publish => s.maker.Written?
  }

  ghost function After(s: State, a: Action): State
    requires Enabled(s, a)
  {
    match a
    case Interrupt(c, frame) => s.(pcs := s.pcs[c := Spinning(frame)])
    case Acquire(c) => s.(pcs := s.pcs[c := Locked(s.pcs[c].frame)], lock := true)
    case Check(c) =>
      s.(pcs := s.pcs[c := if s.n == 0 then Leaving else Scanning(s.pcs[c].frame, 0, 0, -1)])
    case ScanOne(c) =>
      var Scanning(frame, i, cnt, next) := s.pcs[c];
      var t := s.table[i];
      if t.status.WaitingToStart? then s.(pcs := s.pcs[c := Chosen(frame, i)])
      else if t.status.Waiting? then
        var longer := cnt < t.idleTime + 1;
        s.(table := s.table[i := t.(idleTime := t.idleTime + 1)],
           pcs := s.pcs[c := Scanning(frame, i + 1, if longer then t.idleTime + 1 else cnt,
                                      if longer then i else next)])
      else s.(pcs := s.pcs[c := Scanning(frame, i + 1, cnt, next)])
    case ScanEnd(c) =>
      var next := s.pcs[c].next;
      s.(pcs := s.pcs[c := if next == -1 then Leaving else Chosen(s.pcs[c].frame, next)])
    case Commit(c) =>
      var Chosen(frame, next) := s.pcs[c];
      var last := s.current[c];
      s.(table := Switched(s.table, last, next, frame), current := s.current[c := next],
         pcs := s.pcs[c := Entering(next, s.table[next].status.WaitingToStart?)],
         log := s.log + if last == -1 then [] else [Saved(last, c, frame)])
    case Release(c) =>
      s.(lock := false,
         pcs := s.pcs[c := if s.pcs[c].Leaving? then Outside else Dispatching(s.pcs[c].next, s.pcs[c].first)])
    case Dispatch(c) =>
      var Dispatching(next, first) := s.pcs[c];
      var t := s.table[next];
      s.(pcs := s.pcs[c := Outside],
         log := s.log + [if first then Started(next, c, t.regs, t.entryPoint) else Resumed(next, c, t.regs)])
    case PickSlot(index, task) => s.(maker := Building(index, task))
    case Scribble(junk) => s.(table := s.table[s.maker.index := junk])
    case FinishCopy =>
      s.(table := s.table[s.maker.index := s.maker.task], maker := Written(s.maker.index, s.maker.task))
    case Publish =>
      s.(n := s.n + 1, maker := Idle,
         log := s.log + [Created(s.maker.index, s.maker.task.regs, s.maker.task.entryPoint)])
  }

  ghost predicate Init(s: State) {
    && s.n == 0 && !s.lock && s.maker.Idle? && s.log == [] && |s.pcs| == |s.current|
    && (forall i | 0 <= i < |s.table| :: s.table[i].kernelStack == 0)
    && forall c | 0 <= c < |s.pcs| :: s.pcs[c].Outside? && s.current[c] == -1
  }

  /** There is such a start for any number of slots and cores. */
  lemma SystemStarts(slots: nat, cores: nat, blank: Task)
    requires blank.kernelStack == 0
    ensures Init(State(seq(slots, _ => blank), 0, seq(cores, _ => -1), false, seq(cores, _ => Outside), Idle, []))
  {
  }

  ghost predicate Steps(ss: seq<State>, acts: seq<Action>) {
    && |ss| == |acts| + 1
    && forall k | 0 <= k < |acts| :: Enabled(ss[k], acts[k]) && ss[k + 1] == After(ss[k], acts[k])
  }

  /** A run of the whole system from its start. */
  ghost predicate Trace(ss: seq<State>, acts: seq<Action>) {
    Steps(ss, acts) && Init(ss[0])
  }

  /* ---- what the cores hold ---- */

  predicate Holds(pc: Pc) {
    pc.Locked? || pc.Scanning? || pc.Chosen? || pc.Leaving? || pc.Entering?
  }

  /** Mutual exclusion, proved from the test-and-set and not assumed: at most one core is between the lock and its
      release, and the lock byte is set exactly when one is. */
  ghost predicate LockInv(s: State) {
    && |s.pcs| == |s.current|
    && (forall c, d | 0 <= c < |s.pcs| && 0 <= d < |s.pcs| && Holds(s.pcs[c]) && Holds(s.pcs[d]) :: c == d)
    && (s.lock <==> exists c :: 0 <= c < |s.pcs| && Holds(s.pcs[c]))
  }

  lemma LockKept(s: State, a: Action)
    requires LockInv(s) && Enabled(s, a)
    ensures LockInv(After(s, a))
  {
    var s' := After(s, a);
    if !a.PickSlot? && !a.Scribble? && !a.FinishCopy? && !a.Publish? {
      var c := a.c;
      assert forall d | 0 <= d < |s.pcs| && d != c :: s'.pcs[d] == s.pcs[d];
      assert Holds(s.pcs[c]) ==> s.lock;
      assert Holds(s'.pcs[c]) ==> s'.lock;
    }
  }

  /* ---- the creator's slot ---- */

  /** Every slot but the one being written is free exactly when it is unpublished, and the one being written is
      always the first unpublished one, out of reach of every scheduler step. */
  ghost predicate MakerInv(s: State) {
    && s.n <= |s.table|
    && (forall i | 0 <= i < |s.table| && (s.maker.Idle? || i != s.maker.index) ::
          s.table[i].kernelStack == 0 <==> s.n <= i)
    && (!s.maker.Idle? ==> s.maker.index == s.n < |s.table| && s.maker.task.status.WaitingToStart?
                           && s.maker.task.idleTime == 0 && s.maker.task.kernelStack != 0)
    && (s.maker.Written? ==> s.table[s.n] == s.maker.task)
  }

  /** A creation never disturbs what the scheduler reads: until the slot is published the published part of the
      table does not change, whatever has been copied of the new task. */
  lemma BuildingIsInvisible(s: State, a: Action)
    requires MakerInv(s) && Enabled(s, a) && (a.PickSlot? || a.Scribble? || a.FinishCopy?)
    ensures After(s, a).table[..s.n] == s.table[..s.n] && After(s, a).n == s.n
  {
  }

  lemma MakerKept(s: State, a: Action)
    requires MakerInv(s) && CoreInv(s) && ChosenInv(s) && Enabled(s, a)
    ensures MakerInv(After(s, a))
  {
    if a.PickSlot? {
      FreeIndexIsCount(s, a.index, a.task);
    }
  }

  /** The slot findFreeIndex finds is always `numberOfTasks`. */
  lemma FreeIndexIsCount(s: State, index: nat, task: Task)
    requires MakerInv(s) && Enabled(s, PickSlot(index, task))
    ensures index == s.n
  {
    assert s.n <= index;
    assert s.table[s.n].kernelStack == 0;
  }

  /* ---- the cores' tasks ---- */

  /** The published part of the shared state. */
  ghost function Published(s: State): Sched
    requires s.n <= |s.table|
  {
    Sched(s.table[..s.n], s.current)
  }

  /** In every state, whatever the cores are in the middle of, a task is RUNNING exactly when it is the current task
      of exactly one core. */
  ghost predicate CoreInv(s: State) {
    s.n <= |s.table| && OneCoreEach(Published(s))
  }

  ghost predicate ChosenInv(s: State) {
    && s.n <= |s.table| && |s.pcs| == |s.current|
    && forall c | 0 <= c < |s.pcs| ::
         match s.pcs[c]
         case Chosen(_, next) =>
           0 <= next < s.n && (s.table[next].status.Waiting? || s.table[next].status.WaitingToStart?)
         case Entering(next, _) => 0 <= next < s.n && s.current[c] == next
         case Dispatching(next, _) => 0 <= next < s.n && s.current[c] == next
         case _ => true
  }

  /* ---- the scan ---- */

  /** The table as it was before the scan counted the waits of the tasks below k. */
  ghost function Unbumped(tasks: seq<Task>, k: nat): (r: seq<Task>)
    ensures |r| == |tasks|
    ensures forall i :: 0 <= i < |r| ==>
      r[i] == if i < k && tasks[i].status.Waiting? && tasks[i].idleTime > 0
              then tasks[i].(idleTime := tasks[i].idleTime - 1) else tasks[i]
  {
    seq(|tasks|, i requires 0 <= i < |tasks| =>
      if i < k && tasks[i].status.Waiting? && tasks[i].idleTime > 0
      then tasks[i].(idleTime := tasks[i].idleTime - 1) else tasks[i])
  }

  ghost predicate ScanningWell(tasks: seq<Task>, i: nat, cnt: nat, next: int) {
    && i <= |tasks|
    && (forall j | 0 <= j < i && tasks[j].status.Waiting? :: tasks[j].idleTime > 0)
    && NoneToStart(tasks, i) && Longest(Unbumped(tasks, i), i, next, cnt)
  }

  ghost predicate ScanInv(s: State) {
    && s.n <= |s.table|
    && forall c | 0 <= c < |s.pcs| && s.pcs[c].Scanning? ::
         ScanningWell(s.table[..s.n], s.pcs[c].i, s.pcs[c].cnt, s.pcs[c].next)
  }

  /* ---- the scheduler these steps add up to ---- */

  predicate Busy(pc: Pc) {
    pc.Scanning? || pc.Chosen?
  }

  /** The published state with core c's call in progress undone (while it scans) or completed (once it has chosen):
      a call takes effect when its scan ends. */
  ghost function AbsAt(s: State, c: nat): Sched
    requires s.n <= |s.table| && c < |s.pcs| && c < |s.current|
  {
    match s.pcs[c]
    case Scanning(_, i, _, _) => Sched(Unbumped(s.table[..s.n], i), s.current)
    case Chosen(frame, next) => Sched(Switched(s.table[..s.n], s.current[c], next, frame), s.current[c := next])
    case _ => Published(s)
  }

  ghost function Abs(s: State): Sched
    requires s.n <= |s.table| && |s.pcs| == |s.current|
  {
    if c: nat :| c < |s.pcs| && Busy(s.pcs[c]) then AbsAt(s, c) else Published(s)
  }
}
