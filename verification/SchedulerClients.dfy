/** What the users of kernel/sched/scheduler.c see of it: how a new task is first entered, and how a displaced one is
    entered again. Both follow from the contracts of the routines alone. */
module SchedulerClients {
  import opened Words
  import opened Scheduler
  import opened SchedulerCode

  /** Create a task when all others have started, then let a core call the scheduler: the core enters the new task at
      the requested entry point, on the requested stack and segments. */
  method CreateThenCall(table: TaskTable, ss: u64, rsp: u64, cs: u64, entryPoint: u64, pml4Index: u64, stackBase: u64,
                        junk: Regs, regs: Regs)
    returns (exit: Exit)
    requires table.Valid() && table.numberOfTasks < table.tasks.Length && stackBase + 0x2000 < 0x8000_0000_0000
    requires regs.core < table.currentTask.Length
    requires forall i | 0 <= i < table.numberOfTasks :: !table.tasks[i].status.WaitingToStart?
    modifies table, table.tasks, table.currentTask
    ensures table.Valid()
    ensures exit == StartTask(ss, rsp, cs, entryPoint)
    ensures var t := table.tasks[old(table.numberOfTasks)];
            t.status == Running && t.pml4Index == pml4Index && t.kernelStack == HIGH_VMA + stackBase + 0x2000
    ensures table.currentTask[regs.core] == old(table.numberOfTasks)
  {
    ghost var s := table.View();
    table.CreateNewTask(ss, rsp, cs, entryPoint, pml4Index, stackBase, junk);
    ghost var s1 := table.View();
    ghost var task :| Create(s, s1, task) && Requested(task, ss, rsp, cs, entryPoint, pml4Index, stackBase, junk);
    exit := table.SchedulerMain(regs);
    ghost var next :| Call(s1, table.View(), regs.core, regs, next) && ExitsTo(s1, next, exit);
    NewestIsNext(s, s1, table.View(), task, regs.core, regs, next);
    CallKeepsIdentity(s1, table.View(), regs.core, regs, next, next);
    assert table.View().tasks[next] == table.tasks[next];
  }

  /** A task created when all others have started is the one the next call dispatches. */
  lemma NewestIsNext(s: Sched, s1: Sched, s2: Sched, task: Task, core: nat, frame: Regs, next: int)
    requires Create(s, s1, task) && Inv(s1) && Call(s1, s2, core, frame, next)
    requires forall i | 0 <= i < |s.tasks| :: !s.tasks[i].status.WaitingToStart?
    ensures next == |s.tasks| && s1.tasks[next] == task && core < |s2.current| && s2.current[core] == next
    ensures next < |s2.tasks| && s2.tasks[next].status == Running
  {
    assert s1.tasks[|s.tasks|] == task;
    CallSwitchesIffReady(s1, s2, core, frame, next);
    CallSwitches(s1, s2, core, frame, next);
    assert forall i | 0 <= i < |s.tasks| :: s1.tasks[i] == s.tasks[i];
  }

  /** Interrupt the running task of a core while another is ready, then let the core call the scheduler, with whatever
      frames, until it is the turn of that task again: the core switches to exactly the frame interrupted. */
  method DisplaceThenReturn(table: TaskTable, frame: Regs, later: nat -> Regs) returns (exit: Exit)
    requires table.Valid() && frame.core < table.currentTask.Length && table.currentTask[frame.core] != -1
    requires forall i :: later(i).core == frame.core
    requires exists i :: 0 <= i < table.numberOfTasks
                         && (table.tasks[i].status.Waiting? || table.tasks[i].status.WaitingToStart?)
    modifies table.tasks, table.currentTask
    ensures table.Valid()
    ensures exit == SwitchTask(frame, frame.ss)
    ensures table.currentTask[frame.core] == old(table.currentTask[frame.core])
  {
    ghost var s := table.View();
    var core := frame.core;
    var task := table.currentTask[core];
    assert exists i :: 0 <= i < |s.tasks| && (s.tasks[i].status.Waiting? || s.tasks[i].status.WaitingToStart?) by {
      var i :| 0 <= i < table.numberOfTasks
               && (table.tasks[i].status.Waiting? || table.tasks[i].status.WaitingToStart?);
      assert s.tasks[i] == table.tasks[i];
    }
    exit := table.SchedulerMain(frame);
    ghost var next :| Call(s, table.View(), core, frame, next) && ExitsTo(s, next, exit);
    Displaced(s, table.View(), core, frame, next);
    var i := 0;
    while table.currentTask[core] != task
      invariant table.Valid() && table.currentTask.Length == |s.current| && table.numberOfTasks == |s.tasks|
      invariant table.currentTask[core] == task ==> exit == SwitchTask(frame, frame.ss)
      invariant table.currentTask[core] != task ==> Parked(table.View(), task, frame)
      decreases if table.currentTask[core] == task then 0 else 1 + |Ahead(table.View(), task)|
    {
      ghost var before := table.View();
      exit := table.SchedulerMain(later(i));
      next :| Call(before, table.View(), core, later(i), next) && ExitsTo(before, next, exit);
      TurnComes(before, table.View(), core, later(i), next, task, frame);
      i := i + 1;
    }
  }

  /** The task waits with this frame. */
  ghost predicate Parked(s: Sched, task: int, frame: Regs) {
    0 <= task < |s.tasks| && s.tasks[task].status.Waiting? && s.tasks[task].regs == frame
  }

  lemma Displaced(s: Sched, s': Sched, core: nat, frame: Regs, next: int)
    requires Inv(s) && Call(s, s', core, frame, next) && s.current[core] != -1
    requires exists i :: 0 <= i < |s.tasks| && (s.tasks[i].status.Waiting? || s.tasks[i].status.WaitingToStart?)
    ensures |s'.tasks| == |s.tasks| && |s'.current| == |s.current|
    ensures s'.current[core] != s.current[core] && Parked(s', s.current[core], frame)
  {
    CallSwitchesIffReady(s, s', core, frame, next);
    CallSwitches(s, s', core, frame, next);
  }

  lemma TurnComes(s: Sched, s': Sched, core: nat, frame: Regs, next: int, task: nat, parked: Regs)
    requires Inv(s) && Call(s, s', core, frame, next) && Parked(s, task, parked)
    ensures |s'.tasks| == |s.tasks| && |s'.current| == |s.current| && next != -1 && s'.current[core] == next
    ensures next == task || (Parked(s', task, parked) && |Ahead(s', task)| < |Ahead(s, task)|)
  {
    CallSwitchesIffReady(s, s', core, frame, next);
    CallSwitches(s, s', core, frame, next);
    if next != task {
      SwitchAdvances(s, s', core, frame, next, task);
      assert s.current[core] != -1 ==> s.tasks[s.current[core]].status.Running?;
    }
  }
}
