/** The task table of kernel/sched/scheduler.c: what one scheduler call and one task creation do to it, the
    invariant they keep, and the first-in first-out queue hidden in the idle counters. */
module Scheduler {
  import opened Words
  import opened FiniteSets

  /** A zeroed slot reads as Unused. */
  datatype Status = Unused | WaitingToStart | Running | Waiting

  /** A saved interrupt frame; `general` stands for the general-purpose registers. */
  datatype Regs = Regs(core: nat, rip: u64, cs: u64, rflags: u64, rsp: u64, ss: u64, general: seq<u64>)

  datatype Task = Task(status: Status, pml4Index: u64, regs: Regs, kernelStack: u64, entryPoint: u64, idleTime: nat)

  /** The published tasks (the first `numberOfTasks` of the table) and each core's current task (-1 for none). */
  datatype Sched = Sched(tasks: seq<Task>, current: seq<int>)

  /* ---- selection ---- */

  ghost predicate NoneToStart(tasks: seq<Task>, k: nat)
    requires k <= |tasks|
  {
    forall j | 0 <= j < k :: !tasks[j].status.WaitingToStart?
  }

  /** Among the first k tasks, `next` is the first of those that have waited longest (-1 if none waits), and `cnt`
      is its idle time once this call has counted it. */
  ghost predicate Longest(tasks: seq<Task>, k: nat, next: int, cnt: nat)
    requires k <= |tasks|
  {
    if next == -1 then cnt == 0 && forall j | 0 <= j < k :: !tasks[j].status.Waiting?
    else && 0 <= next < k && tasks[next].status.Waiting? && cnt == tasks[next].idleTime + 1
         && (forall j | 0 <= j < k && tasks[j].status.Waiting? :: tasks[j].idleTime <= tasks[next].idleTime)
         && (forall j | 0 <= j < next && tasks[j].status.Waiting? :: tasks[j].idleTime < tasks[next].idleTime)
  }

  /** The task a call picks, and the table index at which its scan stops. */
  ghost predicate Selection(tasks: seq<Task>, stop: nat, next: int) {
    && stop <= |tasks| && NoneToStart(tasks, stop)
    && if stop < |tasks| then tasks[stop].status.WaitingToStart? && next == stop
       else exists cnt :: Longest(tasks, stop, next, cnt)
  }

  /** The table after the scan has counted one more wait for every waiting task below k. */
  ghost function Bumped(tasks: seq<Task>, k: nat): (r: seq<Task>)
    ensures |r| == |tasks|
    ensures forall i :: 0 <= i < |r| ==>
      r[i] == if i < k && tasks[i].status.Waiting? then tasks[i].(idleTime := tasks[i].idleTime + 1) else tasks[i]
  {
    seq(|tasks|, i requires 0 <= i < |tasks| =>
      if i < k && tasks[i].status.Waiting? then tasks[i].(idleTime := tasks[i].idleTime + 1) else tasks[i])
  }

  /** The table after the displaced task (if any) is saved and `next` is made the running one. */
  ghost function Switched(tasks: seq<Task>, last: int, next: int, frame: Regs): (r: seq<Task>)
    ensures |r| == |tasks|
    ensures forall i :: 0 <= i < |r| ==>
      r[i] == if i == next then tasks[i].(status := Running, idleTime := 0)
              else if i == last then tasks[i].(status := Waiting, regs := frame) else tasks[i]
  {
    seq(|tasks|, i requires 0 <= i < |tasks| =>
      if i == next then tasks[i].(status := Running, idleTime := 0)
      else if i == last then tasks[i].(status := Waiting, regs := frame) else tasks[i])
  }

  ghost function AfterCall(s: Sched, stop: nat, next: int, core: nat, frame: Regs): Sched
    requires core < |s.current|
  {
    if next == -1 then s.(tasks := Bumped(s.tasks, stop))
    else s.(tasks := Switched(Bumped(s.tasks, stop), s.current[core], next, frame), current := s.current[core := next])
  }

  /** One whole call of the scheduler on a core whose interrupted context is `frame`. */
  ghost predicate Call(s: Sched, s': Sched, core: nat, frame: Regs, next: int) {
    && core < |s.current|
    && exists stop: nat :: Selection(s.tasks, stop, next) && s' == AfterCall(s, stop, next, core, frame)
  }

  /** One task creation seen whole: the new task is published behind the others. */
  ghost predicate Create(s: Sched, s': Sched, task: Task) {
    && task.status.WaitingToStart? && task.idleTime == 0
    && s' == s.(tasks := s.tasks + [task])
  }

  /* ---- the invariant ---- */

  ghost predicate Started(t: Task) {
    t.status.Running? || t.status.Waiting?
  }

  /** Published tasks split into a started prefix and a suffix still to start. */
  ghost predicate StartedPrefix(s: Sched)
  {
    && (forall i | 0 <= i < |s.tasks| :: !s.tasks[i].status.Unused?)
    && forall i, j | 0 <= i < j < |s.tasks| && Started(s.tasks[j]) :: Started(s.tasks[i])
  }

  ghost predicate DistinctWaits(s: Sched)
  {
    && (forall i, j | 0 <= i < j < |s.tasks| && s.tasks[i].status.Waiting? && s.tasks[j].status.Waiting? ::
          s.tasks[i].idleTime != s.tasks[j].idleTime)
    && forall i | 0 <= i < |s.tasks| && !s.tasks[i].status.Waiting? :: s.tasks[i].idleTime == 0
  }

  /** A task runs exactly when it is the current task of exactly one core. */
  ghost predicate OneCoreEach(s: Sched)
  {
    && (forall c | 0 <= c < |s.current| :: s.current[c] == -1
          || (0 <= s.current[c] < |s.tasks| && s.tasks[s.current[c]].status.Running?))
    && (forall c, d | 0 <= c < d < |s.current| && s.current[c] == s.current[d] :: s.current[c] == -1)
    && forall i | 0 <= i < |s.tasks| && s.tasks[i].status.Running? :: i in s.current
  }

  /** The tasks that will be dispatched before waiting task t. */
  ghost predicate IsAhead(s: Sched, t: nat, j: int)
    requires t < |s.tasks|
  {
    && 0 <= j < |s.tasks|
    && (s.tasks[j].status.WaitingToStart?
        || (s.tasks[j].status.Waiting? && s.tasks[j].idleTime > s.tasks[t].idleTime))
  }

  ghost function Ahead(s: Sched, t: nat): set<int>
    requires t < |s.tasks|
  {
    set j | 0 <= j < |s.tasks| && IsAhead(s, t, j)
  }

  /** A waiting task's idle time and the tasks still ahead of it never exceed the number of other tasks less one. */
  ghost predicate WaitBound(s: Sched, t: nat)
    requires t < |s.tasks|
  {
    s.tasks[t].status.Waiting? ==> s.tasks[t].idleTime + |Ahead(s, t)| <= |s.tasks| - 2
  }

  ghost predicate Inv(s: Sched) {
    && StartedPrefix(s) && DistinctWaits(s) && OneCoreEach(s)
    && forall t: nat | t < |s.tasks| :: WaitBound(s, t)
  }

  /* ---- what a call does to each task ---- */

  /** A call that finds anything ready switches; one that finds nothing changes nothing. */
  lemma CallSwitchesIffReady(s: Sched, s': Sched, core: nat, frame: Regs, next: int)
    requires Call(s, s', core, frame, next)
    ensures next != -1 <==>
      exists i :: 0 <= i < |s.tasks| && (s.tasks[i].status.Waiting? || s.tasks[i].status.WaitingToStart?)
    ensures next == -1 ==> s' == s
    ensures next != -1 ==> 0 <= next < |s.tasks| && s'.current[core] == next
                           && (s.tasks[next].status.Waiting? || s.tasks[next].status.WaitingToStart?)
  {
    var stop: nat :| Selection(s.tasks, stop, next) && s' == AfterCall(s, stop, next, core, frame);
    if next == -1 {
      assert Bumped(s.tasks, stop) == s.tasks;
    }
  }

  /** What a switching call does to each published task, whatever index its scan stopped at: the dispatched task is
      the lowest one still to start if there is one and otherwise the one that has waited longest; the displaced
      task is saved and starts to wait; every other waiting task has waited one call longer. */
  ghost predicate Switches(s: Sched, s': Sched, core: nat, frame: Regs, next: int) {
    && core < |s.current| && 0 <= next < |s.tasks|
    && s'.current == s.current[core := next] && |s'.tasks| == |s.tasks|
    && next != s.current[core] && -1 <= s.current[core] < |s.tasks|
    && (if s.tasks[next].status.WaitingToStart? then NoneToStart(s.tasks, next)
        else s.tasks[next].status.Waiting? && NoneToStart(s.tasks, |s.tasks|)
             && forall j | 0 <= j < |s.tasks| && s.tasks[j].status.Waiting? && j != next ::
                  s.tasks[j].idleTime < s.tasks[next].idleTime)
    && forall i | 0 <= i < |s.tasks| :: s'.tasks[i] == AfterSwitch(s.tasks[i], i, s.current[core], next, frame)
  }

  function AfterSwitch(t: Task, i: int, last: int, next: int, frame: Regs): Task {
    if i == next then t.(status := Running, idleTime := 0)
    else if i == last then t.(status := Waiting, regs := frame)
    else if t.status.Waiting? then t.(idleTime := t.idleTime + 1) else t
  }

  /** The scan reaches every waiting task before it stops, because waiting tasks are all in the started prefix. */
  lemma StopCoversWaiters(s: Sched, stop: nat, next: int)
    requires Inv(s) && Selection(s.tasks, stop, next)
    ensures forall i | 0 <= i < |s.tasks| && s.tasks[i].status.Waiting? :: i < stop
  {
    if stop < |s.tasks| {
      assert !Started(s.tasks[stop]);
    }
  }

  lemma CallSwitches(s: Sched, s': Sched, core: nat, frame: Regs, next: int)
    requires Inv(s) && Call(s, s', core, frame, next) && next != -1
    ensures Switches(s, s', core, frame, next)
  {
    var stop: nat :| Selection(s.tasks, stop, next) && s' == AfterCall(s, stop, next, core, frame);
    StopCoversWaiters(s, stop, next);
    if stop == |s.tasks| {
      forall j | 0 <= j < |s.tasks| && s.tasks[j].status.Waiting? && j != next
        ensures s.tasks[j].idleTime < s.tasks[next].idleTime
      {
        assert s.tasks[j].idleTime != s.tasks[next].idleTime;
      }
    }
  }

  /** A call never touches what a task is: its address space, kernel stack and entry point stay, and of all saved
      frames only that of the task it displaces changes, to the frame it was given. */
  lemma CallKeepsIdentity(s: Sched, s': Sched, core: nat, frame: Regs, next: int, i: nat)
    requires Inv(s) && Call(s, s', core, frame, next) && i < |s.tasks|
    ensures |s'.tasks| == |s.tasks|
    ensures var t, t' := s.tasks[i], s'.tasks[i];
            && t'.pml4Index == t.pml4Index && t'.kernelStack == t.kernelStack && t'.entryPoint == t.entryPoint
            && t'.regs == if next != -1 && i == s.current[core] then frame else t.regs
  {
    CallSwitchesIffReady(s, s', core, frame, next);
    if next != -1 {
      CallSwitches(s, s', core, frame, next);
    }
  }

  lemma SwitchKeepsPrefix(s: Sched, s': Sched, core: nat, frame: Regs, next: int)
    requires Inv(s) && Switches(s, s', core, frame, next)
    ensures StartedPrefix(s') && DistinctWaits(s')
  {
    assert s.current[core] != -1 ==> s.tasks[s.current[core]].status.Running?;
    assert forall i | 0 <= i < |s.tasks| :: Started(s'.tasks[i]) <==> Started(s.tasks[i]) || i == next;
    forall i, j | 0 <= i < j < |s.tasks| && Started(s'.tasks[j]) ensures Started(s'.tasks[i]) {
      assert Started(s.tasks[j]) ==> Started(s.tasks[i]);
      assert j == next ==> !s.tasks[i].status.WaitingToStart?;
    }
  }

  lemma SwitchKeepsCores(s: Sched, s': Sched, core: nat, frame: Regs, next: int)
    requires Inv(s) && Switches(s, s', core, frame, next)
    ensures OneCoreEach(s')
  {
    forall i | 0 <= i < |s.tasks| && s'.tasks[i].status.Running? ensures i in s'.current {
      if i == next {
        assert s'.current[core] == i;
      } else {
        var c :| 0 <= c < |s.current| && s.current[c] == i;
        assert s'.current[c] == i;
      }
    }
  }

  /** A waiting task that is not dispatched by a switching call loses exactly the dispatched task from the tasks
      ahead of it, and has waited one call longer. */
  lemma SwitchAdvances(s: Sched, s': Sched, core: nat, frame: Regs, next: int, t: nat)
    requires Inv(s) && Switches(s, s', core, frame, next)
    requires t < |s.tasks| && s.tasks[t].status.Waiting? && next != t
    ensures next in Ahead(s, t) && Ahead(s', t) == Ahead(s, t) - {next}
    ensures |Ahead(s', t)| == |Ahead(s, t)| - 1
    ensures s'.tasks[t].status.Waiting? && s'.tasks[t].idleTime == s.tasks[t].idleTime + 1
  {
    assert s.current[core] != -1 ==> s.tasks[s.current[core]].status.Running?;
    assert IsAhead(s, t, next);
    forall j ensures IsAhead(s', t, j) <==> IsAhead(s, t, j) && j != next {
    }
    assert Ahead(s', t) == Ahead(s, t) - {next};
  }

  lemma SwitchKeepsBound(s: Sched, s': Sched, core: nat, frame: Regs, next: int, t: nat)
    requires Inv(s) && Switches(s, s', core, frame, next) && t < |s.tasks|
    ensures WaitBound(s', t)
  {
    if s'.tasks[t].status.Waiting? {
      if s.tasks[t].status.Waiting? {
        SwitchAdvances(s, s', core, frame, next, t);
        assert WaitBound(s, t);
      } else {
        // t has just been displaced: everyone but itself and the dispatched task may be ahead of it
        assert t == s.current[core] && s.tasks[t].idleTime == 0;
        assert !IsAhead(s', t, t) && !IsAhead(s', t, next);
        BelowSize(Ahead(s', t), |s.tasks|, t, next);
      }
    }
  }

  /** A set of indices below n that misses two of them has at most n - 2 elements. */
  lemma BelowSize(a: set<int>, n: nat, x: int, y: int)
    requires forall i | i in a :: 0 <= i < n
    requires 0 <= x < n && 0 <= y < n && x != y && x !in a && y !in a
    ensures |a| <= n - 2
  {
    IndicesBelow(a + {x, y}, n);
    assert |a + {x, y}| == |a| + 2;
  }

  /** Every call keeps the invariant. */
  lemma CallKeepsInv(s: Sched, s': Sched, core: nat, frame: Regs, next: int)
    requires Inv(s) && Call(s, s', core, frame, next)
    ensures Inv(s') && |s'.tasks| == |s.tasks| && |s'.current| == |s.current|
  {
    if next == -1 {
      CallSwitchesIffReady(s, s', core, frame, next);
    } else {
      CallSwitches(s, s', core, frame, next);
      SwitchKeepsPrefix(s, s', core, frame, next);
      SwitchKeepsCores(s, s', core, frame, next);
      forall t: nat | t < |s'.tasks| ensures WaitBound(s', t) {
        SwitchKeepsBound(s, s', core, frame, next, t);
      }
    }
  }

  /** A creation puts exactly one more task ahead of every waiting task. */
  lemma CreateAddsOneAhead(s: Sched, s': Sched, task: Task, t: nat)
    requires Create(s, s', task) && t < |s.tasks|
    ensures Ahead(s', t) == Ahead(s, t) + {|s.tasks|} && |Ahead(s', t)| == |Ahead(s, t)| + 1
    ensures s'.tasks[t] == s.tasks[t]
  {
    forall j ensures IsAhead(s', t, j) <==> IsAhead(s, t, j) || j == |s.tasks| {
    }
    assert Ahead(s', t) == Ahead(s, t) + {|s.tasks|};
  }

  lemma CreateKeepsInv(s: Sched, s': Sched, task: Task)
    requires Inv(s) && Create(s, s', task)
    ensures Inv(s')
  {
    forall t: nat | t < |s'.tasks| ensures WaitBound(s', t) {
      if t < |s.tasks| {
        CreateAddsOneAhead(s, s', task, t);
        assert WaitBound(s, t);
      }
    }
  }
}
