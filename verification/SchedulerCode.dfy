/** The scheduler as kernel/sched/scheduler.c writes it: a table updated in place, one call at a time under the lock.
    Each method is proved to do exactly what `Call` and `Create` say. */
module SchedulerCode {
  import opened Words
  import opened Scheduler

  /** How a call leaves the scheduler: back to the interrupted context, or into a task. */
  datatype Exit =
    | Return
    | StartTask(ss: u64, rsp: u64, cs: u64, entryPoint: u64)
    | SwitchTask(frame: Regs, ss: u64)

  /** A task as its creator asked for it; the rest of its frame is whatever `junk` holds. */
  ghost predicate Requested(t: Task, ss: u64, rsp: u64, cs: u64, entryPoint: u64, pml4Index: u64, stackBase: u64,
                            junk: Regs) {
    && t.regs.ss == ss && t.regs.rsp == rsp && t.regs.cs == cs
    && t.regs.(ss := junk.ss, rsp := junk.rsp, cs := junk.cs) == junk
    && t.entryPoint == entryPoint && t.pml4Index == pml4Index
    && t.kernelStack == HIGH_VMA + stackBase + 2 * PAGESIZE
  }

  /** The exit that a call dispatching `next` (or nothing) takes, in terms of the table it finds: a waiting task is
      switched to with the frame in its slot, a new one started where its creator said. */
  ghost predicate ExitsTo(s: Sched, next: int, exit: Exit) {
    if next == -1 then exit == Return
    else if !(0 <= next < |s.tasks|) then false
    else
      var t := s.tasks[next];
      && (t.status.Waiting? ==> exit == SwitchTask(t.regs, t.regs.ss))
      && (t.status.WaitingToStart? ==> exit == StartTask(t.regs.ss, t.regs.rsp, t.regs.cs, t.entryPoint))
  }

  /** The scan's result when it stops at index `stop`. */
  ghost predicate Chosen(tasks: seq<Task>, stop: nat, next: int, cnt: nat) {
    && stop <= |tasks| && NoneToStart(tasks, stop)
    && if stop < |tasks| then tasks[stop].status.WaitingToStart? && next == stop else Longest(tasks, stop, next, cnt)
  }

  lemma ScanBegins(tasks: seq<Task>)
    ensures NoneToStart(tasks, 0) && Longest(tasks, 0, -1, 0)
  {
  }

  /** One iteration of the selection loop. */
  lemma ScanAdvances(tasks: seq<Task>, i: nat, next: int, cnt: nat)
    requires i < |tasks| && NoneToStart(tasks, i) && Longest(tasks, i, next, cnt)
    ensures !tasks[i].status.WaitingToStart? ==> NoneToStart(tasks, i + 1)
    ensures if tasks[i].status.Waiting? && cnt < tasks[i].idleTime + 1
            then Longest(tasks, i + 1, i, tasks[i].idleTime + 1)
            else Longest(tasks, i + 1, next, cnt)
  {
  }

  /** A completed scan followed by its update is a call. */
  lemma CallFound(s: Sched, s': Sched, stop: nat, next: int, cnt: nat, core: nat, frame: Regs)
    requires core < |s.current| && Chosen(s.tasks, stop, next, cnt)
    requires s' == AfterCall(s, stop, next, core, frame)
    ensures Call(s, s', core, frame, next)
  {
    assert Selection(s.tasks, stop, next);
  }

  lemma CallInRange(s: Sched, stop: nat, next: int, cnt: nat, core: nat)
    requires Inv(s) && core < |s.current| && Chosen(s.tasks, stop, next, cnt) && next != -1
    ensures 0 <= next < |s.tasks| && (s.tasks[next].status.Waiting? || s.tasks[next].status.WaitingToStart?)
    ensures s.current[core] == -1 || (0 <= s.current[core] < |s.tasks| && s.tasks[s.current[core]].status.Running?)
  {
  }

  class TaskTable {
    const tasks: array<Task>
    var numberOfTasks: nat
    /** `cpuInfo[core].currentTask`. */
    const currentTask: array<int>

    /** `schedulerInit` on a zeroed table; no core has a task yet. */
    constructor (slots: nat, cores: nat, blank: Task)
      requires blank.kernelStack == 0
      ensures Valid() && fresh(tasks) && fresh(currentTask)
      ensures tasks.Length == slots && currentTask.Length == cores && numberOfTasks == 0
    {
      tasks := new Task[slots](_ => blank);
      currentTask := new int[cores](_ => -1);
      numberOfTasks := 0;
    }

    ghost function View(): Sched
      reads this, tasks, currentTask
      requires numberOfTasks <= tasks.Length
    {
      Sched(tasks[..numberOfTasks], currentTask[..])
    }

    /** The scheduler's invariant, and free slots are the unpublished ones. */
    ghost predicate Valid()
      reads this, tasks, currentTask
    {
      && tasks as object != currentTask
      && numberOfTasks <= tasks.Length && Inv(View())
      && SlotsAgree()
    }

    /** A slot is free (no kernel stack) exactly when it is unpublished. */
    ghost predicate SlotsAgree()
      reads this, tasks
    {
      forall i | 0 <= i < tasks.Length :: tasks[i].kernelStack == 0 <==> numberOfTasks <= i
    }

    /** `schedulerMain`, from taking the lock to leaving the scheduler. */
    method SchedulerMain(regs: Regs) returns (exit: Exit)
      requires Valid() && regs.core < currentTask.Length
      modifies tasks, currentTask
      ensures Valid()
      ensures exists next ::
        Call(old(View()), View(), regs.core, regs, next) && ExitsTo(old(View()), next, exit)
      ensures tasks[numberOfTasks..] == old(tasks[numberOfTasks..])
    {
      hide Inv, Call, NoneToStart, Longest;
      ghost var s := View();
      ScanBegins(s.tasks);
      if numberOfTasks == 0 {
        assert tasks[..numberOfTasks] == Bumped(s.tasks, 0);
        CallFound(s, View(), 0, -1, 0, regs.core, regs);
        return Return;
      }
      var nextTask, lastTask := -1, currentTask[regs.core];
      var cnt: nat := 0;
      var i := 0;
      while i < numberOfTasks
        invariant i <= numberOfTasks && SlotsAgree()
        invariant tasks[..numberOfTasks] == Bumped(s.tasks, i) && currentTask[..] == s.current
        invariant tasks[numberOfTasks..] == old(tasks[numberOfTasks..])
        invariant NoneToStart(s.tasks, i) && Longest(s.tasks, i, nextTask, cnt)
      {
        ScanAdvances(s.tasks, i, nextTask, cnt);
        if tasks[i].status.Waiting? {
          tasks[i] := tasks[i].(idleTime := tasks[i].idleTime + 1);
          if cnt < tasks[i].idleTime {
            cnt := tasks[i].idleTime;
            nextTask := i;
          }
        }
        if tasks[i].status.WaitingToStart? {
          nextTask := i;
          break;
        }
        assert tasks[..numberOfTasks] == Bumped(s.tasks, i + 1);
        i := i + 1;
      }
      if nextTask == -1 {
        CallFound(s, View(), i, -1, cnt, regs.core, regs);
        CallKeepsInv(s, View(), regs.core, regs, -1);
        return Return;
      }
      CallInRange(s, i, nextTask, cnt, regs.core);
      exit := SwitchTo(s, i, cnt, nextTask, lastTask, regs);
    }

    /** Lines 50 to 71: save the displaced task, make the chosen one current and running, and enter it. */
    method SwitchTo(ghost s: Sched, ghost stop: nat, ghost cnt: nat, nextTask: int, lastTask: int, regs: Regs)
      returns (exit: Exit)
      requires Inv(s) && Chosen(s.tasks, stop, nextTask, cnt)
      requires 0 <= nextTask < numberOfTasks && -1 <= lastTask < numberOfTasks && lastTask != nextTask
      requires tasks as object != currentTask && numberOfTasks == |s.tasks| <= tasks.Length
      requires tasks[..numberOfTasks] == Bumped(s.tasks, stop) && currentTask[..] == s.current
      requires SlotsAgree()
      requires regs.core < currentTask.Length && lastTask == currentTask[regs.core]
      modifies tasks, currentTask
      ensures Valid() && Call(s, View(), regs.core, regs, nextTask) && ExitsTo(s, nextTask, exit)
      ensures tasks[numberOfTasks..] == old(tasks[numberOfTasks..])
    {
      hide Inv, Call, Chosen, NoneToStart;
      if lastTask != -1 {
        tasks[lastTask] := tasks[lastTask].(regs := regs, status := Waiting);
      }
      currentTask[regs.core] := nextTask;
      tasks[nextTask] := tasks[nextTask].(idleTime := 0);
      if tasks[nextTask].status.WaitingToStart? {
        tasks[nextTask] := tasks[nextTask].(status := Running);
        var t := tasks[nextTask];
        exit := StartTask(t.regs.ss, t.regs.rsp, t.regs.cs, t.entryPoint);
      } else {
        tasks[nextTask] := tasks[nextTask].(status := Running);
        var t := tasks[nextTask];
        exit := SwitchTask(t.regs, t.regs.ss);
      }
      assert tasks[..numberOfTasks] == Switched(Bumped(s.tasks, stop), lastTask, nextTask, regs);
      CallFound(s, View(), stop, nextTask, cnt, regs.core, regs);
      CallKeepsInv(s, View(), regs.core, regs, nextTask);
    }

    /** `findFreeIndex`. */
    method FindFreeIndex() returns (index: int)
      ensures index == -1 ==> forall i | 0 <= i < tasks.Length :: tasks[i].kernelStack != 0
      ensures index != -1 ==> 0 <= index < tasks.Length && tasks[index].kernelStack == 0
                              && forall i | 0 <= i < index :: tasks[i].kernelStack != 0
    {
      for i := 0 to tasks.Length
        invariant forall j | 0 <= j < i :: tasks[j].kernelStack != 0
      {
        if tasks[i].kernelStack == 0 {
          return i;
        }
      }
      return -1;
    }

    /** `createNewTask` with a free slot. `pml4Index` and `stackBase` are what createNewAddressSpace and
        physicalPageAlloc answered, `junk` the uninitialised frame on the caller's stack. */
    method CreateNewTask(ss: u64, rsp: u64, cs: u64, entryPoint: u64, pml4Index: u64, stackBase: u64, junk: Regs)
      requires Valid() && numberOfTasks < tasks.Length
      requires stackBase + 0x2000 < 0x8000_0000_0000
      modifies this, tasks
      ensures Valid()
      ensures exists task :: Create(old(View()), View(), task)
                             && Requested(task, ss, rsp, cs, entryPoint, pml4Index, stackBase, junk)
      ensures tasks[numberOfTasks..] == old(tasks[numberOfTasks..])[1..]
    {
      ghost var s := View();
      var index := FindFreeIndex();
      assert index == numberOfTasks by {
        assert tasks[numberOfTasks].kernelStack == 0;
      }
      var regs := junk.(rsp := rsp, ss := ss, cs := cs);
      var newTask := Task(WaitingToStart, pml4Index, regs, U64(stackBase + 0x2000 + HIGH_VMA), entryPoint, 0);
      tasks[index] := newTask;
      numberOfTasks := numberOfTasks + 1;
      assert Create(s, View(), newTask);
      assert Requested(newTask, ss, rsp, cs, entryPoint, pml4Index, stackBase, junk);
      CreateKeepsInv(s, View(), newTask);
    }
  }
}
