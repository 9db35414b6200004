/** The idle counters are a first-in first-out queue, and every waiting task has a bounded wait. */
module SchedulerQueue {
  import opened Scheduler

  /* ---- refinement of a queue ---- */

  /** The abstract scheduler: a queue of waiting tasks, tasks started in table order, one current task a core. */
  datatype Fifo = Fifo(queue: seq<int>, started: nat, total: nat, current: seq<int>)

  /** The task an abstract call dispatches: the next one never started, else the head of the queue. */
  function Front(f: Fifo): int {
    if f.started < f.total then f.started else if f.queue != [] then f.queue[0] else -1
  }

  /** An abstract call dispatches the front and puts the displaced task, if any, at the back of the queue. */
  function FifoCall(f: Fifo, core: nat): Fifo
    requires core < |f.current|
  {
    var back := if f.current[core] == -1 then [] else [f.current[core]];
    if f.started < f.total then Fifo(f.queue + back, f.started + 1, f.total, f.current[core := f.started])
    else if f.queue != [] then Fifo(f.queue[1..] + back, f.started, f.total, f.current[core := f.queue[0]])
    else f
  }

  function FifoCreate(f: Fifo): Fifo {
    f.(total := f.total + 1)
  }

  /** The queue lists exactly the waiting tasks. */
  ghost predicate Lists(tasks: seq<Task>, q: seq<int>) {
    forall i :: i in q <==> 0 <= i < |tasks| && tasks[i].status.Waiting?
  }

  /** Longest wait first. */
  ghost predicate ByWait(tasks: seq<Task>, q: seq<int>) {
    && (forall a | 0 <= a < |q| :: 0 <= q[a] < |tasks|)
    && forall a, b | 0 <= a < b < |q| :: tasks[q[a]].idleTime > tasks[q[b]].idleTime
  }

  ghost predicate Represents(s: Sched, f: Fifo) {
    && f.total == |s.tasks| && f.current == s.current && f.started <= |s.tasks|
    && (forall i | 0 <= i < |s.tasks| :: s.tasks[i].status.WaitingToStart? <==> f.started <= i)
    && Lists(s.tasks, f.queue) && ByWait(s.tasks, f.queue)
  }

  lemma FrontIsReady(s: Sched, f: Fifo)
    requires Represents(s, f) && Front(f) != -1
    ensures 0 <= Front(f) < |s.tasks|
    ensures s.tasks[Front(f)].status.WaitingToStart? || s.tasks[Front(f)].status.Waiting?
  {
    assert f.started >= |s.tasks| ==> Front(f) in f.queue;
  }

  /** A scheduler call dispatches the front of the abstract queue. */
  lemma CallDispatchesFront(s: Sched, s': Sched, core: nat, frame: Regs, next: int, f: Fifo)
    requires Inv(s) && Call(s, s', core, frame, next) && Represents(s, f)
    ensures next == Front(f)
  {
    CallSwitchesIffReady(s, s', core, frame, next);
    if next == -1 {
      if Front(f) != -1 {
        FrontIsReady(s, f);
      }
    } else {
      CallSwitches(s, s', core, frame, next);
      SwitchTakesFront(s, s', core, frame, next, f);
    }
  }

  lemma SwitchTakesFront(s: Sched, s': Sched, core: nat, frame: Regs, next: int, f: Fifo)
    requires Inv(s) && Switches(s, s', core, frame, next) && Represents(s, f)
    ensures next == Front(f)
  {
    if f.started < |s.tasks| {
      assert s.tasks[f.started].status.WaitingToStart?;
    } else {
      assert next in f.queue;
      var a :| 0 <= a < |f.queue| && f.queue[a] == next;
      assert f.queue[0] in f.queue;
      assert a == 0;
    }
  }

  /** The idle-counter scheduler refines the queue: every call does to the table what the abstract call does to the
      queue. */
  lemma CallRefinesFifo(s: Sched, s': Sched, core: nat, frame: Regs, next: int, f: Fifo)
    requires Inv(s) && Call(s, s', core, frame, next) && Represents(s, f)
    ensures Represents(s', FifoCall(f, core))
  {
    CallDispatchesFront(s, s', core, frame, next, f);
    CallSwitchesIffReady(s, s', core, frame, next);
    if next != -1 {
      CallSwitches(s, s', core, frame, next);
      SwitchRefinesFifo(s, s', core, frame, next, f);
    }
  }

  lemma SwitchRefinesFifo(s: Sched, s': Sched, core: nat, frame: Regs, next: int, f: Fifo)
    requires Inv(s) && Switches(s, s', core, frame, next) && Represents(s, f) && next == Front(f)
    ensures Represents(s', FifoCall(f, core))
  {
    assert s.current[core] != -1 ==> s.tasks[s.current[core]].status.Running?;
    hide Inv;
    QueueAfterSwitch(s, s', core, frame, next, f);
    StartedAfterSwitch(s, s', core, frame, next, f);
  }

  lemma StartedAfterSwitch(s: Sched, s': Sched, core: nat, frame: Regs, next: int, f: Fifo)
    requires Switches(s, s', core, frame, next) && Represents(s, f) && next == Front(f)
    requires s.current[core] != -1 ==> s.tasks[s.current[core]].status.Running?
    ensures var f' := FifoCall(f, core);
            f'.started <= |s.tasks| &&
            forall i | 0 <= i < |s.tasks| :: s'.tasks[i].status.WaitingToStart? <==> f'.started <= i
  {
  }

  lemma QueueAfterSwitch(s: Sched, s': Sched, core: nat, frame: Regs, next: int, f: Fifo)
    requires Switches(s, s', core, frame, next) && Represents(s, f) && next == Front(f)
    requires s.current[core] != -1 ==>
      s.tasks[s.current[core]].status.Running? && s.tasks[s.current[core]].idleTime == 0
    ensures Lists(s'.tasks, FifoCall(f, core).queue) && ByWait(s'.tasks, FifoCall(f, core).queue)
  {
    hide ByWait, Lists;
    var last := s.current[core];
    var rest := if f.started < f.total then f.queue else f.queue[1..];
    var back := if last == -1 then [] else [last];
    RestListsOthers(s.tasks, f, next);
    ListsAfterSwitch(s, s', core, frame, next, rest, back);
    OthersWaitOneMore(s, s', core, frame, next, rest);
    ByWaitAfterSwitch(s.tasks, s'.tasks, rest, back);
    assert FifoCall(f, core).queue == rest + back;
  }

  lemma ListsAfterSwitch(s: Sched, s': Sched, core: nat, frame: Regs, next: int, rest: seq<int>, back: seq<int>)
    requires Switches(s, s', core, frame, next)
    requires forall i :: i in rest <==> i != next && 0 <= i < |s.tasks| && s.tasks[i].status.Waiting?
    requires back == if s.current[core] == -1 then [] else [s.current[core]]
    ensures Lists(s'.tasks, rest + back)
  {
    forall i ensures i in rest + back <==> 0 <= i < |s.tasks| && s'.tasks[i].status.Waiting? {
      assert i in rest + back <==> i in rest || i in back;
    }
  }

  lemma OthersWaitOneMore(s: Sched, s': Sched, core: nat, frame: Regs, next: int, rest: seq<int>)
    requires Switches(s, s', core, frame, next)
    requires s.current[core] != -1 ==> s.tasks[s.current[core]].status.Running?
    requires forall i | i in rest :: i != next && 0 <= i < |s.tasks| && s.tasks[i].status.Waiting?
    ensures forall i | i in rest :: s'.tasks[i].idleTime == s.tasks[i].idleTime + 1
  {
  }

  /** One more wait for everyone in the queue and none yet for the task put at its back. */
  lemma ByWaitAfterSwitch(tasks: seq<Task>, tasks': seq<Task>, rest: seq<int>, back: seq<int>)
    requires ByWait(tasks, rest) && |tasks'| == |tasks| && |back| <= 1
    requires forall i | i in rest :: tasks'[i].idleTime == tasks[i].idleTime + 1
    requires forall i | i in back :: 0 <= i < |tasks| && tasks'[i].idleTime == 0
    ensures ByWait(tasks', rest + back)
  {
    var q := rest + back;
    forall a | 0 <= a < |q|
      ensures a < |rest| ==> q[a] == rest[a] && q[a] in rest
      ensures a >= |rest| ==> q[a] in back
    {
    }
  }

  /** What stays of the queue when the front is dispatched: the other waiting tasks, in the same order. */
  lemma RestListsOthers(tasks: seq<Task>, f: Fifo, next: int)
    requires Lists(tasks, f.queue) && ByWait(tasks, f.queue) && f.total == |tasks|
    requires forall i | 0 <= i < |tasks| :: tasks[i].status.WaitingToStart? <==> f.started <= i
    requires next == Front(f) && next != -1
    ensures var rest := if f.started < f.total then f.queue else f.queue[1..];
            && ByWait(tasks, rest)
            && forall i :: i in rest <==> i != next && 0 <= i < |tasks| && tasks[i].status.Waiting?
  {
    if f.started >= f.total {
      var rest := f.queue[1..];
      assert f.queue == [next] + rest;
      forall a | 0 <= a < |rest| ensures rest[a] != next {
        assert rest[a] == f.queue[a + 1];
        assert tasks[f.queue[0]].idleTime > tasks[f.queue[a + 1]].idleTime;
      }
    }
  }

  lemma CreateRefinesFifo(s: Sched, s': Sched, task: Task, f: Fifo)
    requires Create(s, s', task) && Represents(s, f)
    ensures Represents(s', FifoCreate(f))
  {
  }

  /* ---- bounded waiting ---- */

  datatype Op = SchedulerCall(core: nat, frame: Regs, next: int) | Creation(task: Task)

  ghost predicate Step(s: Sched, s': Sched, op: Op) {
    match op
    case SchedulerCall(core, frame, next) => Call(s, s', core, frame, next)
    case Creation(task) => Create(s, s', task)
  }

  ghost predicate Run(ss: seq<Sched>, ops: seq<Op>) {
    && |ss| == |ops| + 1 && Inv(ss[0])
    && forall k | 0 <= k < |ops| :: Step(ss[k], ss[k + 1], ops[k])
  }

  function Calls(ops: seq<Op>): nat {
    if ops == [] then 0 else Calls(ops[..|ops| - 1]) + if ops[|ops| - 1].SchedulerCall? then 1 else 0
  }

  function Creations(ops: seq<Op>): nat {
    if ops == [] then 0 else Creations(ops[..|ops| - 1]) + if ops[|ops| - 1].Creation? then 1 else 0
  }

  ghost predicate Dispatched(ops: seq<Op>, t: int) {
    exists k :: 0 <= k < |ops| && ops[k].SchedulerCall? && ops[k].next == t
  }

  lemma StepKeepsInv(s: Sched, s': Sched, op: Op)
    requires Inv(s) && Step(s, s', op)
    ensures Inv(s') && |s.tasks| <= |s'.tasks|
  {
    match op
    case SchedulerCall(core, frame, next) => CallKeepsInv(s, s', core, frame, next);
    case Creation(task) => CreateKeepsInv(s, s', task);
  }

  /** A waiting task is dispatched by exactly the call that finds no task ahead of it. */
  lemma DispatchedIffNoneAhead(s: Sched, s': Sched, core: nat, frame: Regs, next: int, t: nat)
    requires Inv(s) && Call(s, s', core, frame, next)
    requires t < |s.tasks| && s.tasks[t].status.Waiting?
    ensures next == t <==> Ahead(s, t) == {}
  {
    CallSwitchesIffReady(s, s', core, frame, next);
    CallSwitches(s, s', core, frame, next);
    if next == t {
      forall j ensures !IsAhead(s, t, j) {
      }
      assert Ahead(s, t) == {};
    } else {
      SwitchAdvances(s, s', core, frame, next, t);
    }
  }

  /** Over any run in which a waiting task is not dispatched, the calls made by whatever cores are paid for exactly:
      the calls plus the tasks still ahead equal the tasks ahead at the start plus the creations. */
  lemma {:induction false} WaitIsExact(ss: seq<Sched>, ops: seq<Op>, t: nat)
    requires Run(ss, ops) && t < |ss[0].tasks| && ss[0].tasks[t].status.Waiting? && !Dispatched(ops, t)
    ensures var s, s' := ss[0], ss[|ops|];
            && Inv(s') && t < |s'.tasks| && s'.tasks[t].status.Waiting?
            && Calls(ops) + |Ahead(s', t)| == |Ahead(s, t)| + Creations(ops)
            && s'.tasks[t].idleTime == s.tasks[t].idleTime + Calls(ops)
  {
    hide Inv, Step, Dispatched, Ahead;
    if ops != [] {
      var k := |ops| - 1;
      var before := ops[..k];
      assert Run(ss[..|ops|], before) by {
        assert forall i | 0 <= i < k :: before[i] == ops[i];
      }
      DispatchedOneMore(ops, t);
      WaitIsExact(ss[..|ops|], before, t);
      assert Step(ss[k], ss[k + 1], ops[k]);
      StepWaits(ss[k], ss[k + 1], ops[k], t);
    }
  }

  lemma StepWaits(s: Sched, s': Sched, op: Op, t: nat)
    requires Inv(s) && Step(s, s', op) && t < |s.tasks| && s.tasks[t].status.Waiting?
    requires op.SchedulerCall? ==> op.next != t
    ensures Inv(s') && t < |s'.tasks| && s'.tasks[t].status.Waiting?
    ensures op.SchedulerCall? ==>
              |Ahead(s', t)| + 1 == |Ahead(s, t)| && s'.tasks[t].idleTime == s.tasks[t].idleTime + 1
    ensures op.Creation? ==> |Ahead(s', t)| == |Ahead(s, t)| + 1 && s'.tasks[t].idleTime == s.tasks[t].idleTime
  {
    StepKeepsInv(s, s', op);
    hide Inv, Ahead, Call;
    match op
    case SchedulerCall(core, frame, next) =>
      CallSwitchesIffReady(s, s', core, frame, next);
      CallSwitches(s, s', core, frame, next);
      SwitchAdvances(s, s', core, frame, next, t);
    case Creation(task) =>
      CreateAddsOneAhead(s, s', task, t);
  }

  /** No starvation: a task with r tasks ahead of it is dispatched within r calls, plus one for each creation, plus
      one. Between calls its idle time is at most the number of tasks less two, so it never overflows. */
  lemma BoundedWaiting(ss: seq<Sched>, ops: seq<Op>, t: nat)
    requires Run(ss, ops) && t < |ss[0].tasks| && ss[0].tasks[t].status.Waiting?
    ensures Calls(ops) > |Ahead(ss[0], t)| + Creations(ops) ==> Dispatched(ops, t)
    ensures !Dispatched(ops, t) ==> t < |ss[|ops|].tasks|
                                    && ss[|ops|].tasks[t].idleTime <= |ss[|ops|].tasks| - 2
  {
    if !Dispatched(ops, t) {
      WaitIsExact(ss, ops, t);
      assert WaitBound(ss[|ops|], t);
    }
  }

  /* ---- tasks still to start ---- */

  /** The first p tasks, and only they, have started. */
  ghost predicate StartedCount(s: Sched, p: nat) {
    p <= |s.tasks| && forall i | 0 <= i < |s.tasks| :: s.tasks[i].status.WaitingToStart? <==> p <= i
  }

  /** The invariant gives such a count in every state. */
  lemma {:induction false} StartedCountExists(s: Sched, k: nat) returns (p: nat)
    requires StartedPrefix(s) && k <= |s.tasks|
    ensures p <= k && forall i | 0 <= i < k :: s.tasks[i].status.WaitingToStart? <==> p <= i
  {
    p := k;
    if k > 0 {
      p := StartedCountExists(s, k - 1);
      if !s.tasks[k - 1].status.WaitingToStart? {
        assert forall i | 0 <= i < k - 1 :: Started(s.tasks[i]);
        p := k;
      }
    }
  }

  /** While a task is still to start, a call starts the first of those that are, and only a call does. */
  lemma CallStartsNext(s: Sched, s': Sched, core: nat, frame: Regs, next: int, p: nat)
    requires Inv(s) && Call(s, s', core, frame, next) && StartedCount(s, p) && p < |s.tasks|
    ensures next == p && StartedCount(s', p + 1)
  {
    assert s.tasks[p].status.WaitingToStart?;
    CallSwitchesIffReady(s, s', core, frame, next);
    CallSwitches(s, s', core, frame, next);
    assert s.current[core] != -1 ==> s.tasks[s.current[core]].status.Running?;
    hide Inv, Call;
    assert next == p;
  }

  /** New tasks start strictly in turn: with p tasks started, the task at index t >= p is dispatched within a run if and
      only if the run makes more than t - p calls, by whatever cores and whatever is created meanwhile. */
  lemma {:induction false} StartsInTurnIff(ss: seq<Sched>, ops: seq<Op>, t: nat, p: nat)
    requires Run(ss, ops) && StartedCount(ss[0], p) && p <= t < |ss[0].tasks|
    ensures Dispatched(ops, t) <==> Calls(ops) > t - p
    ensures Calls(ops) <= t - p ==>
              Inv(ss[|ops|]) && t < |ss[|ops|].tasks| && StartedCount(ss[|ops|], p + Calls(ops))
  {
    hide Inv, Step, Dispatched, StartedCount;
    NothingDispatched(t);
    if ops != [] {
      var k := |ops| - 1;
      var before := ops[..k];
      assert Run(ss[..|ops|], before) by {
        assert forall i | 0 <= i < k :: before[i] == ops[i];
      }
      StartsInTurnIff(ss[..|ops|], before, t, p);
      assert Step(ss[k], ss[k + 1], ops[k]);
      DispatchedOneMore(ops, t);
      if Calls(before) <= t - p {
        StepKeepsInv(ss[k], ss[k + 1], ops[k]);
        StepStartsNext(ss[k], ss[k + 1], ops[k], p + Calls(before));
      }
    }
  }

  lemma StepStartsNext(s: Sched, s': Sched, op: Op, p: nat)
    requires Inv(s) && Step(s, s', op) && StartedCount(s, p) && p < |s.tasks|
    ensures op.SchedulerCall? ==> op.next == p && StartedCount(s', p + 1)
    ensures op.Creation? ==> StartedCount(s', p)
  {
    hide Inv, Call;
    match op
    case SchedulerCall(core, frame, next) => CallStartsNext(s, s', core, frame, next, p);
    case Creation(task) =>
  }

  lemma NothingDispatched(t: int)
    ensures !Dispatched([], t)
  {
  }

  lemma DispatchedOneMore(ops: seq<Op>, t: int)
    requires ops != []
    ensures var last := ops[|ops| - 1];
            Dispatched(ops, t) <==> Dispatched(ops[..|ops| - 1], t) || (last.SchedulerCall? && last.next == t)
  {
    var before := ops[..|ops| - 1];
    if Dispatched(ops, t) {
      var i :| 0 <= i < |ops| && ops[i].SchedulerCall? && ops[i].next == t;
      assert i < |before| ==> before[i] == ops[i];
    }
    if Dispatched(before, t) {
      var i :| 0 <= i < |before| && before[i].SchedulerCall? && before[i].next == t;
      assert ops[i] == before[i];
    }
  }
}
