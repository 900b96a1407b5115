/** The scheduler as the source runs it: the task array, the running id, the turn counter and the
    forced switch, updated in place.  Every method does what `SchedulerSpec` says. */
module Scheduler {
  import opened Machine
  import opened SchedulerSpec

  class TaskScheduler {
    const tasks: array<Slot>
    var runningTid: int
    var taskCount: int
    var counter: int
    var switchToKernel: bool
    ghost var killers: seq<int>   // ids that threads inside a kill have checked

    ghost predicate Valid()
      reads this, tasks
    {
      Sane(View())
    }

    ghost function View(): (s: State)
      reads this, tasks
    {
      State(tasks[..], runningTid, taskCount, counter, switchToKernel, killers)
    }

    constructor ()
      ensures View() == Init() && Valid() && fresh(tasks)
    {
      tasks := new Slot[MAX_TASK_COUNT](i => Slot(false, true, false, false, false, 0, 0));
      runningTid, taskCount, counter, switchToKernel, killers := -1, 0, 1, false, [];
      new;
      assert tasks[..] == Init().slots;
    }

    /** The first runnable slot in `[lo, hi)`, or -1. */
    method Scan(lo: int, hi: int) returns (tid: int)
      requires 0 <= lo && hi <= tasks.Length
      ensures tid == FirstRunnable(tasks[..], lo, hi)
    {
      var i := lo;
      while i < hi
        invariant lo <= i
        invariant lo < hi ==> i <= hi
        invariant FirstRunnable(tasks[..], lo, hi) == FirstRunnable(tasks[..], i, hi)
      {
        if tasks[i].used && tasks[i].ready {
          return i;
        }
        i := i + 1;
      }
      tid := -1;
    }

    /** `TskmgrGetNextTaskID`. */
    method GetNextTaskID() returns (tid: int)
      requires Valid()
      modifies this`runningTid, tasks
      ensures View() == Pick(old(View())) && tid == runningTid && Valid()
    {
      hide UsedCount, Refill, FirstRunnable;
      PickSane(View());
      if runningTid != -1 {
        tasks[runningTid] := tasks[runningTid].(tick := tasks[runningTid].tick - 1);
        if tasks[runningTid].tick > 0 {
          return runningTid;
        }
        tasks[runningTid] := tasks[runningTid].(
          tick := Refill(tasks[runningTid].tick, tasks[runningTid].priority));
        assert tasks[..] == old(tasks[..])[runningTid := CountDown(old(tasks[..])[runningTid])];
      }
      if runningTid == -1 {
        runningTid := Scan(0, MAX_TASK_COUNT);
      } else if tasks[runningTid].ran {
        var next := Scan(runningTid + 1, MAX_TASK_COUNT);
        if next == -1 {
          next := Scan(0, runningTid);
        }
        if next != -1 {
          tasks[next] := tasks[next].(ran := false, running := true);
          tasks[runningTid] := tasks[runningTid].(running := false);
        }
        runningTid := next;
      }
      tid := runningTid;
    }

    /** `TaskmgrSetTaskRunningStatus`: the source marks the running task, whatever id it is given. */
    method SetTaskRunningStatus(tid: int)
      requires 0 <= runningTid < tasks.Length
      modifies tasks
      ensures tasks[..] ==
              old(tasks[..])[runningTid := old(tasks[..])[runningTid].(ran := true)]
    {
      tasks[runningTid] := tasks[runningTid].(ran := true);
    }

    /** The decision part of `_KnlTimerInterrupt`. */
    method TimerInterrupt() returns (turn: Turn)
      requires Valid()
      modifies this, tasks
      ensures View() == TimerStep(old(View())) && turn == TimerTurn(old(View())) && Valid()
    {
      hide Pick;
      StepSane(View(), Timer);
      var tid := GetNextTaskID();
      if counter >= taskCount || tid == -1 || switchToKernel {
        switchToKernel := false;
        counter := 0;
        turn := KernelTurn;
      } else {
        counter := counter + 1;
        SetTaskRunningStatus(tid);
        turn := UserTurn(tid);
      }
    }

    /** The slot part of `_TskmgrCreateTask`; without memory for its system-call stack it returns
        before it touches the slot, without the rest of its memory it leaves the slot used. */
    method CreateTask(stack: bool, memory: bool) returns (tid: int)
      requires Valid()
      modifies this`taskCount, tasks
      ensures !stack ==> View() == old(View())
      ensures stack ==> View() == Step(old(View()), if memory then Create else CreateFails)
      ensures Valid()
      ensures tid == if stack && memory then FreeSlot(old(tasks[..]), 0) else -1
    {
      hide UsedCount;
      StepSane(View(), if memory then Create else CreateFails);
      var ui := 0;
      while ui < MAX_TASK_COUNT && !(!tasks[ui].used && tasks[ui].allocable)
        invariant 0 <= ui <= MAX_TASK_COUNT
        invariant FreeSlot(tasks[..], 0) == FreeSlot(tasks[..], ui)
      {
        ui := ui + 1;
      }
      if ui == MAX_TASK_COUNT || !stack {
        return -1;
      }
      tid := ui;
      tasks[tid] := tasks[tid].(used := true, running := false, priority := TASK_TICK_NORMAL,
                                tick := TASK_TICK_NORMAL);
      if !memory {
        return -1;
      }
      tasks[tid] := tasks[tid].(ran := false, ready := false);
      taskCount := taskCount + 1;
    }

    /** The check of `_TskmgrKillTask`, before it lets interrupts in. */
    method BeginKill(tid: int) returns (ok: bool)
      requires Valid()
      modifies this`killers
      ensures View() == Step(old(View()), KillBegin(tid)) && Valid()
      ensures ok <==> Live(old(View()), tid)
    {
      if tid < 0 || tid >= MAX_TASK_COUNT || !tasks[tid].used {
        return false;
      }
      killers := killers + [tid];
      ok := true;
    }

    /** The slot part of the rest of `_TskmgrKillTask`, which does not check the slot again; it is
        refused while the task holds a disk lock. */
    method EndKill(tid: int, busy: bool, ghost i: nat) returns (ok: bool)
      requires Valid() && Killing(View(), i) && killers[i] == tid
      modifies this`runningTid, this`taskCount, this`killers, tasks
      ensures View() == Step(old(View()), KillEnd(i, !busy)) && Valid() && ok == !busy
    {
      hide UsedCount;
      StepSane(View(), KillEnd(i, !busy));
      killers := killers[i := -1];
      if busy {
        return false;
      }
      if tid == runningTid {
        runningTid := -1;
      }
      tasks[tid] := tasks[tid].(used := false);
      taskCount := taskCount - 1;
      ok := true;
    }

    /** `TskmgrSetTaskToReady`. */
    method SetTaskToReady(tid: int) returns (ok: bool)
      requires Valid()
      modifies tasks
      ensures View() == Step(old(View()), SetReady(tid)) && Valid()
      ensures ok <==> Live(old(View()), tid)
    {
      hide UsedCount;
      StepSane(View(), SetReady(tid));
      if tid < 0 || tid >= MAX_TASK_COUNT || !tasks[tid].used {
        return false;
      }
      tasks[tid] := tasks[tid].(ready := true);
      ok := true;
    }
  }
}
