/** The choice of the next task and of the kernel's turn, as a step system over the task slots,
    the running id, the turn counter and the forced switch. */
module SchedulerSpec {
  import opened Machine

  const TASK_PRIORITY_HIGH: int := 1
  const TASK_PRIORITY_NORMAL: int := 2
  const TASK_PRIORITY_LOW: int := 3
  const TASK_TICK_HIGH: int := 40
  const TASK_TICK_NORMAL: int := 15
  const TASK_TICK_LOW: int := 5

  datatype Slot = Slot(used: bool, allocable: bool, ready: bool, ran: bool, running: bool,
                       tick: int, priority: int)

  /** `killers` are the ids that threads inside `_TskmgrKillTask` have checked, -1 once they are
      done. */
  datatype State = State(slots: seq<Slot>, runningTid: int, taskCount: int, counter: int,
                         switchToKernel: bool, killers: seq<int>)

  /** Who gets the processor at the end of a timer interrupt. */
  datatype Turn = KernelTurn | UserTurn(tid: int)

  datatype Event =
    | Timer
    | Create
    | CreateFails
    | KillBegin(tid: int)
    | KillEnd(killer: nat, ok: bool)
    | SetReady(tid: int)
    | SetPriority(tid: int, priority: int)
    | SetAllocable(tid: int, allocable: bool)
    | ForceKernel

  // --------------------------------------------------------------- operations

  predicate Runnable(slots: seq<Slot>, i: int) {
    0 <= i < |slots| && slots[i].used && slots[i].ready
  }

  predicate Live(s: State, tid: int) {
    0 <= tid < |s.slots| && s.slots[tid].used
  }

  /** The slots are in place, a running id is the id of a runnable slot, and the counter is not
      negative. */
  ghost predicate Sane(s: State) {
    && |s.slots| == MAX_TASK_COUNT && s.counter >= 0
    && (s.runningTid == -1 || Runnable(s.slots, s.runningTid))
  }

  function Init(): (s: State) {
    State(seq(MAX_TASK_COUNT, i => Slot(false, true, false, false, false, 0, 0)), -1, 0, 1, false, [])
  }

  /** What a tick that reached zero is set to again; other priorities leave it alone. */
  function Refill(tick: int, priority: int): int {
    if priority == TASK_PRIORITY_HIGH then TASK_TICK_HIGH
    else if priority == TASK_PRIORITY_NORMAL then TASK_TICK_NORMAL
    else if priority == TASK_PRIORITY_LOW then TASK_TICK_LOW
    else tick
  }

  /** The first runnable slot in `[lo, hi)`, or -1. */
  function FirstRunnable(slots: seq<Slot>, lo: int, hi: int): (tid: int)
    ensures tid == -1 || (lo <= tid < hi && Runnable(slots, tid))
    ensures forall i :: lo <= i < (if tid == -1 then hi else tid) ==> !Runnable(slots, i)
    decreases hi - lo
  {
    if lo >= hi then -1
    else if Runnable(slots, lo) then lo
    else FirstRunnable(slots, lo + 1, hi)
  }

  /** The next runnable slot after `r` in cyclic order, other than `r`, or -1. */
  function Successor(slots: seq<Slot>, r: int): int {
    var above := FirstRunnable(slots, r + 1, |slots|);
    if above != -1 then above else FirstRunnable(slots, 0, r)
  }

  function HandOver(slots: seq<Slot>, r: int, next: int): (after: seq<Slot>)
    requires 0 <= r < |slots| && 0 <= next < |slots|
    ensures |after| == |slots|
  {
    var picked := slots[next := slots[next].(ran := false, running := true)];
    picked[r := picked[r].(running := false)]
  }

  function CountDown(t: Slot): Slot {
    if t.tick - 1 > 0 then t.(tick := t.tick - 1) else t.(tick := Refill(t.tick - 1, t.priority))
  }

  /** The decision of `TskmgrGetNextTaskID`: count down the running task; when its ticks are used
      up and it ran, hand over to its successor. */
  function Pick(s: State): State {
    var r := s.runningTid;
    if r == -1 then
      s.(runningTid := FirstRunnable(s.slots, 0, |s.slots|))
    else if !(0 <= r < |s.slots|) then
      s
    else
      var counted := s.slots[r := CountDown(s.slots[r])];
      if s.slots[r].tick - 1 > 0 || !s.slots[r].ran then
        s.(slots := counted)
      else
        var next := Successor(counted, r);
        if next == -1 then s.(slots := counted, runningTid := -1)
        else s.(slots := HandOver(counted, r, next), runningTid := next)
  }

  predicate KernelDue(s: State) {
    s.counter >= s.taskCount || s.switchToKernel
  }

  function TimerTurn(s: State): Turn {
    var p := Pick(s);
    if KernelDue(p) || p.runningTid == -1 then KernelTurn else UserTurn(p.runningTid)
  }

  /** One timer interrupt: pick, then give the processor to the kernel or to the picked task. */
  function TimerStep(s: State): State {
    var p := Pick(s);
    if KernelDue(p) || !(0 <= p.runningTid < |p.slots|) then
      p.(counter := 0, switchToKernel := false)
    else
      p.(counter := p.counter + 1,
         slots := p.slots[p.runningTid := p.slots[p.runningTid].(ran := true)])
  }

  /** The first slot that is neither used nor reserved, or -1. */
  function FreeSlot(slots: seq<Slot>, i: nat): (tid: int)
    ensures tid == -1 || (i <= tid < |slots| && !slots[tid].used && slots[tid].allocable)
    ensures forall j :: i <= j < (if tid == -1 then |slots| else tid) ==>
              slots[j].used || !slots[j].allocable
    decreases |slots| - i
  {
    if i >= |slots| then -1
    else if !slots[i].used && slots[i].allocable then i
    else FreeSlot(slots, i + 1)
  }

  function Fresh(t: Slot): Slot {
    t.(used := true, ready := false, ran := false, running := false,
       tick := TASK_TICK_NORMAL, priority := TASK_TICK_NORMAL)
  }

  function CreateTask(s: State): State {
    var tid := FreeSlot(s.slots, 0);
    if tid == -1 then s
    else s.(slots := s.slots[tid := Fresh(s.slots[tid])], taskCount := s.taskCount + 1)
  }

  /** A creation that runs out of memory: its slot stays used, not counted, with the flags `ready`
      and `ran` it had before. */
  function CreateFailing(s: State): State {
    var tid := FreeSlot(s.slots, 0);
    if tid == -1 then s
    else s.(slots := s.slots[tid := s.slots[tid].(used := true, running := false,
                                                 tick := TASK_TICK_NORMAL,
                                                 priority := TASK_TICK_NORMAL)])
  }

  predicate Killing(s: State, i: nat) {
    i < |s.killers| && 0 <= s.killers[i] < |s.slots|
  }

  /** The end of a kill: interrupts were on since its check, and `used` is not checked again. */
  function KillTask(s: State, i: nat, ok: bool): State {
    if !Killing(s, i) then s
    else
      var tid := s.killers[i];
      var after := s.(killers := s.killers[i := -1]);
      if !ok then after
      else after.(slots := s.slots[tid := s.slots[tid].(used := false)],
                  runningTid := if tid == s.runningTid then -1 else s.runningTid,
                  taskCount := s.taskCount - 1)
  }

  function Step(s: State, e: Event): State {
    match e
    case Timer => TimerStep(s)
    case Create => CreateTask(s)
    case CreateFails => CreateFailing(s)
    case KillBegin(tid) => if Live(s, tid) then s.(killers := s.killers + [tid]) else s
    case KillEnd(i, ok) => KillTask(s, i, ok)
    case SetReady(tid) =>
      if Live(s, tid) then s.(slots := s.slots[tid := s.slots[tid].(ready := true)]) else s
    case SetPriority(tid, p) =>
      if Live(s, tid) then s.(slots := s.slots[tid := s.slots[tid].(priority := p)]) else s
    case SetAllocable(tid, b) =>
      if 0 <= tid < |s.slots| then s.(slots := s.slots[tid := s.slots[tid].(allocable := b)]) else s
    case ForceKernel => s.(switchToKernel := true)
  }

  function Run(s: State, es: seq<Event>): State
    decreases |es|
  {
    if es == [] then s else Run(Step(s, es[0]), es[1..])
  }

  /** The turns that the timer interrupts of a run give, in order. */
  function Turns(s: State, es: seq<Event>): seq<Turn>
    decreases |es|
  {
    if es == [] then []
    else (if es[0] == Timer then [TimerTurn(s)] else []) + Turns(Step(s, es[0]), es[1..])
  }

  // ----------------------------------------------------------- every run is sane

  function UsedCount(slots: seq<Slot>): (n: nat)
  {
    if slots == [] then 0
    else UsedCount(slots[..|slots| - 1]) + (if slots[|slots| - 1].used then 1 else 0)
  }

  lemma {:induction false} UsedCountUpdate(slots: seq<Slot>, i: nat, t: Slot)
    requires i < |slots|
    ensures UsedCount(slots[i := t]) ==
            UsedCount(slots) + (if t.used then 1 else 0) - (if slots[i].used then 1 else 0)
  {
    var last := |slots| - 1;
    if i == last {
      assert slots[i := t][..last] == slots[..last];
    } else {
      UsedCountUpdate(slots[..last], i, t);
      assert slots[i := t][..last] == slots[..last][i := t];
    }
  }

  lemma {:induction false} SomeUsed(slots: seq<Slot>, i: nat)
    requires i < |slots| && slots[i].used
    ensures UsedCount(slots) >= 1
  {
    if i < |slots| - 1 {
      SomeUsed(slots[..|slots| - 1], i);
    }
  }

  lemma {:induction false} NoneUsed(slots: seq<Slot>)
    requires forall i :: 0 <= i < |slots| ==> !slots[i].used
    ensures UsedCount(slots) == 0
  {
    if slots != [] {
      NoneUsed(slots[..|slots| - 1]);
    }
  }

  lemma PickSane(s: State)
    requires Sane(s)
    ensures Sane(Pick(s)) && Pick(s).taskCount == s.taskCount
    ensures UsedCount(Pick(s).slots) == UsedCount(s.slots)
    ensures Pick(s).counter == s.counter && Pick(s).switchToKernel == s.switchToKernel
  {
    hide Refill, UsedCount, FirstRunnable;
    var r := s.runningTid;
    if r != -1 {
      var counted := s.slots[r := CountDown(s.slots[r])];
      UsedCountUpdate(s.slots, r, CountDown(s.slots[r]));
      var next := Successor(counted, r);
      if next != -1 {
        var picked := counted[next := counted[next].(ran := false, running := true)];
        UsedCountUpdate(counted, next, picked[next]);
        UsedCountUpdate(picked, r, picked[r].(running := false));
      }
    }
  }

  lemma StepSane(s: State, e: Event)
    requires Sane(s)
    ensures Sane(Step(s, e))
  {
    hide Pick;
    if e == Timer {
      PickSane(s);
    }
  }

  lemma {:induction false} RunSane(s: State, es: seq<Event>)
    requires Sane(s)
    ensures Sane(Run(s, es))
    decreases |es|
  {
    hide Step, Sane;
    if es != [] {
      StepSane(s, es[0]);
      RunSane(Step(s, es[0]), es[1..]);
    }
  }

  /** Over every run from boot the running task is runnable. */
  lemma EveryRunSane(es: seq<Event>)
    ensures Sane(Run(Init(), es))
  {
    RunSane(Init(), es);
  }

  // ------------------------------------------------------------------ the task count

  /** The event makes the count wrong by one: a failing creation leaves a used slot uncounted, and a
      kill that ends on a slot that is no longer used counts it down again. */
  predicate Miscounts(s: State, e: Event) {
    || (e == CreateFails && FreeSlot(s.slots, 0) != -1)
    || (e.KillEnd? && e.ok && Killing(s, e.killer) && !s.slots[s.killers[e.killer]].used)
  }

  function Miscounted(s: State, es: seq<Event>): nat
    decreases |es|
  {
    if es == [] then 0
    else (if Miscounts(s, es[0]) then 1 else 0) + Miscounted(Step(s, es[0]), es[1..])
  }

  function Drift(s: State): int {
    UsedCount(s.slots) - s.taskCount
  }

  lemma StepDrift(s: State, e: Event)
    requires Sane(s)
    ensures Drift(Step(s, e)) == Drift(s) + (if Miscounts(s, e) then 1 else 0)
  {
    hide Pick, UsedCount;
    match e {
      case Timer =>
        PickSane(s);
        var p := Pick(s);
        if p.runningTid != -1 {
          UsedCountUpdate(p.slots, p.runningTid, p.slots[p.runningTid].(ran := true));
        }
      case Create =>
        var tid := FreeSlot(s.slots, 0);
        if tid != -1 {
          UsedCountUpdate(s.slots, tid, Fresh(s.slots[tid]));
        }
      case CreateFails =>
        var tid := FreeSlot(s.slots, 0);
        if tid != -1 {
          UsedCountUpdate(s.slots, tid, CreateFailing(s).slots[tid]);
        }
      case KillBegin(_) =>
      case KillEnd(i, ok) =>
        if Killing(s, i) {
          UsedCountUpdate(s.slots, s.killers[i], s.slots[s.killers[i]].(used := false));
        }
      case SetReady(tid) =>
        if Live(s, tid) {
          UsedCountUpdate(s.slots, tid, s.slots[tid].(ready := true));
        }
      case SetPriority(tid, p) =>
        if Live(s, tid) {
          UsedCountUpdate(s.slots, tid, s.slots[tid].(priority := p));
        }
      case SetAllocable(tid, b) =>
        if 0 <= tid < |s.slots| {
          UsedCountUpdate(s.slots, tid, s.slots[tid].(allocable := b));
        }
      case ForceKernel =>
    }
  }

  lemma {:induction false} RunDrift(s: State, es: seq<Event>)
    requires Sane(s)
    ensures Drift(Run(s, es)) == Drift(s) + Miscounted(s, es)
    decreases |es|
  {
    hide Step, Sane, Drift, Miscounts;
    if es != [] {
      StepSane(s, es[0]);
      StepDrift(s, es[0]);
      RunDrift(Step(s, es[0]), es[1..]);
    }
  }

  /** Over every run from boot the task count falls short of the used slots by one for each
      miscounting event; so it is exact exactly when there was none. */
  lemma EveryRunCounts(es: seq<Event>)
    ensures var s := Run(Init(), es);
      && s.taskCount == UsedCount(s.slots) - Miscounted(Init(), es)
      && (s.taskCount == UsedCount(s.slots) <==> Miscounted(Init(), es) == 0)
  {
    hide Run, Miscounted;
    NoneUsed(Init().slots);
    RunDrift(Init(), es);
  }

  // ------------------------------------------------------------ round-robin order

  /** How many slots after `r` slot `j` comes, going round the table. */
  function Distance(r: int, j: int, n: nat): int {
    if j > r then j - r else j - r + n
  }

  /** The successor is the runnable slot closest after `r` in cyclic order; there is none exactly
      when no other slot is runnable. */
  lemma SuccessorIsNearest(slots: seq<Slot>, r: int)
    requires 0 <= r < |slots|
    ensures var next := Successor(slots, r);
            && (next == -1 <==> forall j :: 0 <= j < |slots| && j != r ==> !Runnable(slots, j))
            && (next != -1 ==>
                  && next != r && Runnable(slots, next)
                  && forall j :: 0 <= j < |slots| && j != r && Runnable(slots, j) ==>
                       Distance(r, next, |slots|) <= Distance(r, j, |slots|))
  {
  }

  // ------------------------------------------------------------------ no starvation

  /** The most timer interrupts a turn of a task can last once it is dispatched, when no refill gives
      it more than `cap`. */
  function Top(t: Slot, cap: nat): int {
    Max(1, Max(t.tick, cap))
  }

  function Cap(caps: seq<nat>, i: int): nat {
    if 0 <= i < |caps| then caps[i] else 0
  }

  /** The priorities of runnable tasks refill no more than the caps. */
  ghost predicate Capped(slots: seq<Slot>, caps: seq<nat>) {
    forall i :: 0 <= i < |slots| && Runnable(slots, i) ==>
      Refill(0, slots[i].priority) <= Cap(caps, i)
  }

  /** Sum over the runnable slots in `[lo, hi)` of one more than the longest turn. */
  function Load(slots: seq<Slot>, caps: seq<nat>, lo: int, hi: int): (n: nat)
    decreases hi - lo
  {
    if lo >= hi then 0
    else (if Runnable(slots, lo) then 1 + Top(slots[lo], Cap(caps, lo)) else 0) + Load(slots, caps, lo + 1, hi)
  }

  /** The load of the slots strictly between `r` and `t` in cyclic order; all others if `r == t`. */
  function Between(slots: seq<Slot>, caps: seq<nat>, r: int, t: int): nat {
    if r < t then Load(slots, caps, r + 1, t)
    else Load(slots, caps, r + 1, |slots|) + Load(slots, caps, 0, t)
  }

  function Pending(s: State): nat {
    if KernelDue(s) then 1 else 0
  }

  /** Interrupts the running task may still keep the processor from its successor. */
  function Remaining(s: State, caps: seq<nat>): int {
    if !(0 <= s.runningTid < |s.slots|) then 0
    else
      var t := s.slots[s.runningTid];
      if t.ran then Max(1, t.tick) else 1 + Pending(s) + Top(t, Cap(caps, s.runningTid))
  }

  /** An upper bound on the interrupts before `t` is given the processor. */
  function Wait(s: State, caps: seq<nat>, t: int): int {
    if s.runningTid == -1 then
      if !KernelDue(s) && FirstRunnable(s.slots, 0, |s.slots|) == t then 1
      else 3 + Load(s.slots, caps, 0, |s.slots|)
    else if 0 <= t < |s.slots| && s.runningTid == t && !s.slots[t].ran then 1 + Pending(s)
    else Remaining(s, caps) + Between(s.slots, caps, s.runningTid, t) + 2
  }

  lemma {:induction false} LoadSplit(slots: seq<Slot>, caps: seq<nat>, lo: int, mid: int, hi: int)
    requires lo <= mid <= hi
    ensures Load(slots, caps, lo, hi) == Load(slots, caps, lo, mid) + Load(slots, caps, mid, hi)
    decreases mid - lo
  {
    if lo < mid {
      LoadSplit(slots, caps, lo + 1, mid, hi);
    }
  }

  lemma {:induction false} LoadNone(slots: seq<Slot>, caps: seq<nat>, lo: int, hi: int)
    requires forall i :: lo <= i < hi ==> !Runnable(slots, i)
    ensures Load(slots, caps, lo, hi) == 0
    decreases hi - lo
  {
    if lo < hi {
      LoadNone(slots, caps, lo + 1, hi);
    }
  }

  /** Two tables whose slots in `[lo, hi)` differ in nothing a turn depends on. */
  ghost predicate Alike(a: seq<Slot>, b: seq<Slot>, caps: seq<nat>, lo: int, hi: int) {
    |a| == |b| && forall i :: lo <= i < hi && 0 <= i < |a| ==>
      (Runnable(a, i) <==> Runnable(b, i)) && (Runnable(a, i) ==> Top(a[i], Cap(caps, i)) == Top(b[i], Cap(caps, i)))
  }

  lemma {:induction false} LoadAlike(a: seq<Slot>, b: seq<Slot>, caps: seq<nat>, lo: int, hi: int)
    requires Alike(a, b, caps, lo, hi)
    ensures Load(a, caps, lo, hi) == Load(b, caps, lo, hi)
    decreases hi - lo
  {
    hide Top;
    if lo < hi {
      LoadAlike(a, b, caps, lo + 1, hi);
    }
  }

  /** Waiting behind `r` for `t` depends only on the slots other than `r` and `t`. */
  lemma BetweenAlike(a: seq<Slot>, b: seq<Slot>, caps: seq<nat>, r: int, t: int)
    requires 0 <= r < |a| && 0 <= t < |a|
    requires Alike(a, b, caps, 0, r) && Alike(a, b, caps, r + 1, |a|)
    ensures Between(a, caps, r, t) == Between(b, caps, r, t)
  {
    hide Top, Load;
    if r < t {
      LoadAlike(a, b, caps, r + 1, t);
    } else {
      LoadAlike(a, b, caps, r + 1, |a|);
      LoadAlike(a, b, caps, 0, t);
    }
  }

  /** Handing over to the successor takes its own turn out of the wait. */
  lemma BetweenHandOver(slots: seq<Slot>, caps: seq<nat>, r: int, t: int)
    requires 0 <= r < |slots| && Runnable(slots, t) && Successor(slots, r) != -1
    ensures Successor(slots, r) != t ==>
              Between(slots, caps, r, t) ==
              1 + Top(slots[Successor(slots, r)], Cap(caps, Successor(slots, r))) + Between(slots, caps, Successor(slots, r), t)
  {
    hide Top, Load;
    var n := |slots|;
    var above := FirstRunnable(slots, r + 1, n);
    var next := Successor(slots, r);
    if next != t {
      if above != -1 {
        LoadNone(slots, caps, r + 1, next);
        var stop := if r < t then t else n;
        LoadSplit(slots, caps, r + 1, next, stop);
        LoadFirst(slots, caps, next, stop);
      } else {
        LoadNone(slots, caps, r + 1, n);
        LoadNone(slots, caps, 0, next);
        LoadSplit(slots, caps, 0, next, t);
        LoadFirst(slots, caps, next, t);
      }
    }
  }

  lemma LoadFirst(slots: seq<Slot>, caps: seq<nat>, lo: int, hi: int)
    requires lo < hi && Runnable(slots, lo)
    ensures Load(slots, caps, lo, hi) == 1 + Top(slots[lo], Cap(caps, lo)) + Load(slots, caps, lo + 1, hi)
  {
  }

  lemma BetweenBound(slots: seq<Slot>, caps: seq<nat>, r: int, t: int)
    requires Runnable(slots, r) && 0 <= t < |slots|
    ensures 1 + Top(slots[r], Cap(caps, r)) + Between(slots, caps, r, t) <= Load(slots, caps, 0, |slots|)
  {
    hide Top, Load;
    var n := |slots|;
    LoadSplit(slots, caps, 0, r, n);
    LoadFirst(slots, caps, r, n);
    if r < t {
      LoadSplit(slots, caps, r + 1, t, n);
    } else {
      LoadSplit(slots, caps, 0, t, r);
    }
  }

  /** The wait is positive and bounded by the load of all runnable tasks. */
  lemma WaitBound(s: State, caps: seq<nat>, t: int)
    requires Sane(s) && Runnable(s.slots, t)
    ensures 1 <= Wait(s, caps, t) <= 3 + Load(s.slots, caps, 0, MAX_TASK_COUNT)
  {
    hide Load, Between;
    if s.runningTid != -1 {
      BetweenBound(s.slots, caps, s.runningTid, t);
    }
  }

  /** A step of the wait: `t` got the processor, or the wait got shorter. */
  ghost predicate Progress(s: State, caps: seq<nat>, t: int) {
    TimerTurn(s) == UserTurn(t) || Wait(TimerStep(s), caps, t) < Wait(s, caps, t)
  }

  predicate Stays(s: State) {
    0 <= s.runningTid < |s.slots| &&
    (s.slots[s.runningTid].tick - 1 > 0 || !s.slots[s.runningTid].ran)
  }

  lemma CountDownTop(t: Slot, cap: nat)
    requires Refill(0, t.priority) <= cap
    ensures Top(CountDown(t), cap) <= Top(t, cap)
    ensures CountDown(t).used == t.used && CountDown(t).ready == t.ready && CountDown(t).ran == t.ran
  {
  }

  lemma ProgressStaying(s: State, caps: seq<nat>, t: int)
    requires Sane(s) && Capped(s.slots, caps) && Runnable(s.slots, t) && s.taskCount >= 1 && Stays(s)
    ensures Progress(s, caps, t)
  {
    hide Load, Between, FirstRunnable, Successor, UsedCount, Refill;
    var r := s.runningTid;
    CountDownTop(s.slots[r], Cap(caps, r));
    var after := TimerStep(s);
    BetweenAlike(s.slots, after.slots, caps, r, t);
  }

  lemma ProgressFromNone(s: State, caps: seq<nat>, t: int)
    requires Sane(s) && Capped(s.slots, caps) && Runnable(s.slots, t) && s.taskCount >= 1 && s.runningTid == -1
    ensures Progress(s, caps, t)
  {
    hide Load, Between, UsedCount, Refill, Top;
    var n := |s.slots|;
    var f := FirstRunnable(s.slots, 0, n);
    var after := TimerStep(s);
    BetweenAlike(s.slots, after.slots, caps, f, t);
    BetweenBound(s.slots, caps, f, t);
    FirstTurn(s, caps, f);
  }

  lemma FirstTurn(s: State, caps: seq<nat>, f: int)
    requires Sane(s) && s.runningTid == -1 && s.taskCount >= 1
    requires f == FirstRunnable(s.slots, 0, |s.slots|) && f != -1
    ensures Remaining(TimerStep(s), caps) <= 1 + Top(s.slots[f], Cap(caps, f))
    ensures TimerStep(s).runningTid == f
  {
    hide Refill;
  }

  /** The state after the running task's turn ended, before the turn is given. */
  lemma ProgressHandingOver(s: State, caps: seq<nat>, t: int)
    requires Sane(s) && Capped(s.slots, caps) && Runnable(s.slots, t) && s.taskCount >= 1
    requires s.runningTid != -1 && !Stays(s)
    ensures Progress(s, caps, t)
  {
    hide Load, Between, FirstRunnable, UsedCount, Refill;
    var r := s.runningTid;
    var counted := s.slots[r := CountDown(s.slots[r])];
    CountDownTop(s.slots[r], Cap(caps, r));
    SuccessorIsNearest(counted, r);
    BetweenAlike(s.slots, counted, caps, r, t);
    var next := Successor(counted, r);
    if next == -1 {
      OnlyRunnable(counted, t);
    } else if next != t {
      BetweenHandOver(counted, caps, r, t);
      HandedAlike(s, caps);
      BetweenAlike(counted, TimerStep(s).slots, caps, next, t);
    }
  }

  lemma HandedAlike(s: State, caps: seq<nat>)
    requires Sane(s) && s.runningTid != -1 && !Stays(s)
    ensures var counted := s.slots[s.runningTid := CountDown(s.slots[s.runningTid])];
      Alike(counted, TimerStep(s).slots, caps, 0, |s.slots|)
  {
    hide FirstRunnable, UsedCount, Refill;
  }

  lemma OnlyRunnable(slots: seq<Slot>, t: int)
    requires Runnable(slots, t) && forall j :: 0 <= j < |slots| && j != t ==> !Runnable(slots, j)
    ensures FirstRunnable(slots, 0, |slots|) == t
  {
  }

  /** Events that leave the set of runnable tasks alone and set no priority that refills more than
      its cap. */
  predicate Quiet(e: Event, caps: seq<nat>) {
    e == Timer || e == Create || e.SetAllocable? || e.KillBegin?
    || (e.SetPriority? && Refill(0, e.priority) <= Cap(caps, e.tid))
  }

  ghost predicate AllQuiet(es: seq<Event>, caps: seq<nat>) {
    forall i :: 0 <= i < |es| ==> Quiet(es[i], caps)
  }

  function TimerCount(es: seq<Event>): (n: nat) {
    if es == [] then 0 else (if es[0] == Timer then 1 else 0) + TimerCount(es[1..])
  }

  /** The same tasks run at the same ticks, and the kernel's turn is no nearer. */
  ghost predicate Steady(s: State, after: State, caps: seq<nat>) {
    && after.runningTid == s.runningTid && (KernelDue(after) ==> KernelDue(s))
    && Alike(s.slots, after.slots, caps, 0, |s.slots|)
    && (forall i :: 0 <= i < |s.slots| && Runnable(s.slots, i) ==>
          after.slots[i].ran == s.slots[i].ran && after.slots[i].tick == s.slots[i].tick)
  }

  lemma QuietSteady(s: State, caps: seq<nat>, e: Event)
    requires Sane(s) && Capped(s.slots, caps) && s.taskCount >= 1
    requires Quiet(e, caps) && e != Timer
    ensures Steady(s, Step(s, e), caps) && Capped(Step(s, e).slots, caps) && Step(s, e).taskCount >= 1
  {
    hide Load, Between, UsedCount, Refill;
  }

  lemma SteadyWait(s: State, after: State, caps: seq<nat>, t: int)
    requires Sane(s) && Runnable(s.slots, t) && Steady(s, after, caps)
    ensures Wait(after, caps, t) <= Wait(s, caps, t)
  {
    hide Load, Between, Top, KernelDue;
    LoadAlike(s.slots, after.slots, caps, 0, |s.slots|);
    if s.runningTid != -1 {
      BetweenAlike(s.slots, after.slots, caps, s.runningTid, t);
    }
  }

  lemma QuietUpdate(s: State, caps: seq<nat>, e: Event, t: int)
    requires Sane(s) && Capped(s.slots, caps) && Runnable(s.slots, t) && s.taskCount >= 1
    requires Quiet(e, caps) && e != Timer
    ensures Runnable(Step(s, e).slots, t) && Wait(Step(s, e), caps, t) <= Wait(s, caps, t)
    ensures Capped(Step(s, e).slots, caps) && Step(s, e).taskCount >= 1
  {
    hide Wait, Capped, Sane, Step, Quiet;
    QuietSteady(s, caps, e);
    SteadyWait(s, Step(s, e), caps, t);
  }

  lemma TimerProgress(s: State, caps: seq<nat>, t: int)
    requires Sane(s) && Capped(s.slots, caps) && Runnable(s.slots, t) && s.taskCount >= 1
    ensures Progress(s, caps, t) && Runnable(TimerStep(s).slots, t)
    ensures Capped(TimerStep(s).slots, caps) && TimerStep(s).taskCount >= 1
  {
    hide Load, Between, UsedCount, Top, FirstRunnable, Wait, Progress, Refill;
    if s.runningTid == -1 {
      ProgressFromNone(s, caps, t);
    } else if Stays(s) {
      ProgressStaying(s, caps, t);
    } else {
      ProgressHandingOver(s, caps, t);
    }
    StillRunnable(s, t);
    StillCapped(s, caps);
  }

  lemma StillRunnable(s: State, t: int)
    requires Sane(s)
    ensures Runnable(TimerStep(s).slots, t) <==> Runnable(s.slots, t)
    ensures TimerStep(s).taskCount == s.taskCount
  {
    hide FirstRunnable, Refill;
  }

  lemma StillCapped(s: State, caps: seq<nat>)
    requires Sane(s) && Capped(s.slots, caps)
    ensures Capped(TimerStep(s).slots, caps)
  {
    hide FirstRunnable, Refill;
  }

  lemma {:induction false} DispatchedWithin(s: State, caps: seq<nat>, es: seq<Event>, t: int)
    requires Sane(s) && Capped(s.slots, caps) && Runnable(s.slots, t) && s.taskCount >= 1
    requires AllQuiet(es, caps) && TimerCount(es) >= Wait(s, caps, t)
    ensures UserTurn(t) in Turns(s, es)
    decreases |es|
  {
    hide Wait, Sane, TimerStep, TimerTurn, CreateTask, Capped;
    WaitBound(s, caps, t);
    StepSane(s, es[0]);
    if es[0] == Timer {
      TimerProgress(s, caps, t);
      if TimerTurn(s) != UserTurn(t) {
        DispatchedWithin(TimerStep(s), caps, es[1..], t);
      }
    } else {
      QuietUpdate(s, caps, es[0], t);
      DispatchedWithin(Step(s, es[0]), caps, es[1..], t);
    }
  }

  /** No starvation: from any state any run reaches with a positive task count, once the set of
      runnable tasks stays fixed and nothing is killed, each runnable task gets the processor within
      three timer interrupts more than the sum over the runnable tasks of one more than their longest
      turn.  Tasks may be created, and priorities set within the caps, all the while. */
  lemma NoStarvation(past: seq<Event>, caps: seq<nat>, future: seq<Event>, t: int)
    requires var s := Run(Init(), past);
      && s.taskCount >= 1 && Runnable(s.slots, t) && Capped(s.slots, caps)
      && AllQuiet(future, caps) && TimerCount(future) >= 3 + Load(s.slots, caps, 0, MAX_TASK_COUNT)
    ensures UserTurn(t) in Turns(Run(Init(), past), future)
  {
    hide *;
    EveryRunSane(past);
    var s := Run(Init(), past);
    WaitBound(s, caps, t);
    DispatchedWithin(s, caps, future, t);
  }

  /** The count is positive after every run without a miscounting event that leaves a task used. */
  lemma NoMiscountNoStarvation(past: seq<Event>, t: int)
    requires Miscounted(Init(), past) == 0 && Live(Run(Init(), past), t)
    ensures Run(Init(), past).taskCount >= 1
  {
    hide Run, Miscounted;
    EveryRunCounts(past);
    SomeUsed(Run(Init(), past).slots, t);
  }

  /** Without a positive count the kernel takes every turn. */
  lemma {:induction false} CountZeroStarves(s: State, es: seq<Event>)
    requires Sane(s) && s.taskCount <= 0 && Create !in es
    ensures forall i :: 0 <= i < |Turns(s, es)| ==> Turns(s, es)[i] == KernelTurn
    decreases |es|
  {
    hide Pick, Sane;
    if es != [] {
      StepSane(s, es[0]);
      KernelAlways(s, es[0]);
      CountZeroStarves(Step(s, es[0]), es[1..]);
    }
  }

  lemma KernelAlways(s: State, e: Event)
    requires Sane(s) && s.taskCount <= 0 && e != Create
    ensures Step(s, e).taskCount <= 0 && (e == Timer ==> TimerTurn(s) == KernelTurn)
  {
    hide Pick, UsedCount;
    PickSane(s);
  }

  /** In a reachable state a runnable task is dispatched by timer interrupts alone exactly if the
      task count is positive. */
  lemma DispatchedIff(past: seq<Event>, t: int)
    requires Runnable(Run(Init(), past).slots, t)
    ensures (exists n: nat :: UserTurn(t) in Turns(Run(Init(), past), Timers(n)))
       <==> Run(Init(), past).taskCount >= 1
  {
    hide *;
    EveryRunSane(past);
    var s := Run(Init(), past);
    if s.taskCount >= 1 {
      var caps := AnyPriority();
      AnyCapped(s.slots);
      var n := 3 + Load(s.slots, caps, 0, MAX_TASK_COUNT);
      TimersQuiet(n, caps);
      NoStarvation(past, caps, Timers(n), t);
    } else {
      forall n: nat
        ensures UserTurn(t) !in Turns(s, Timers(n))
      {
        TimersQuiet(n, []);
        CountZeroStarves(s, Timers(n));
      }
    }
  }

  /** Caps that no priority exceeds. */
  function AnyPriority(): (caps: seq<nat>)
    ensures |caps| == MAX_TASK_COUNT && forall i :: 0 <= i < |caps| ==> caps[i] == TASK_TICK_HIGH
  {
    seq(MAX_TASK_COUNT, i => TASK_TICK_HIGH)
  }

  lemma AnyCapped(slots: seq<Slot>)
    ensures |slots| == MAX_TASK_COUNT ==> Capped(slots, AnyPriority())
  {
  }

  function Timers(n: nat): (es: seq<Event>)
    ensures |es| == n
  {
    if n == 0 then [] else [Timer] + Timers(n - 1)
  }

  lemma {:induction false} TimersQuiet(n: nat, caps: seq<nat>)
    ensures AllQuiet(Timers(n), caps) && TimerCount(Timers(n)) == n && Create !in Timers(n)
    decreases n
  {
    if n > 0 {
      TimersQuiet(n - 1, caps);
      assert Timers(n)[1..] == Timers(n - 1);
    }
  }

  /** Two kills of one task that overlap count it down twice; then another task that is ready is
      never dispatched. */
  function OverlappingKills(): (es: seq<Event>)
    ensures |es| == 7
  {
    [Create, Create, SetReady(1), KillBegin(0), KillBegin(0), KillEnd(0, true), KillEnd(1, true)]
  }

  lemma RunFirst(s: State, e: Event, rest: seq<Event>)
    ensures Run(s, [e] + rest) == Run(Step(s, e), rest)
    ensures Miscounted(s, [e] + rest) ==
            (if Miscounts(s, e) then 1 else 0) + Miscounted(Step(s, e), rest)
  {
    assert ([e] + rest)[1..] == rest;
  }

  lemma OverlappingState()
    ensures var s := Run(Init(), OverlappingKills());
      && s.taskCount == 0 && Runnable(s.slots, 1) && Miscounted(Init(), OverlappingKills()) == 1
  {
    hide UsedCount, Run, Miscounted, TimerStep;
    var es := OverlappingKills();
    var s0 := Init();
    assert FreeSlot(s0.slots, 0) == 0;
    var s1 := Step(s0, Create);
    assert FreeSlot(s1.slots, 0) == FreeSlot(s1.slots, 1) == 1;
    var s2 := Step(s1, Create);
    var s3 := Step(s2, SetReady(1));
    var s4 := Step(s3, KillBegin(0));
    var s5 := Step(s4, KillBegin(0));
    assert s5.killers == [0, 0];
    var s6 := Step(s5, KillEnd(0, true));
    assert s6.killers == [-1, 0];
    var s7 := Step(s6, KillEnd(1, true));
    RunFirst(s0, Create, es[1..]);
    RunFirst(s1, Create, es[2..]);
    RunFirst(s2, SetReady(1), es[3..]);
    RunFirst(s3, KillBegin(0), es[4..]);
    RunFirst(s4, KillBegin(0), es[5..]);
    RunFirst(s5, KillEnd(0, true), es[6..]);
    RunFirst(s6, KillEnd(1, true), []);
    assert es == [Create] + es[1..] && es[1..] == [Create] + es[2..];
    assert es[2..] == [SetReady(1)] + es[3..] && es[3..] == [KillBegin(0)] + es[4..];
    assert es[4..] == [KillBegin(0)] + es[5..] && es[5..] == [KillEnd(0, true)] + es[6..];
    assert es[6..] == [KillEnd(1, true)] + [];
    RunOfNone(s7);
  }

  lemma RunOfNone(s: State)
    ensures Run(s, []) == s && Miscounted(s, []) == 0
  {
  }

  lemma OverlappingKillsStarve(n: nat)
    ensures var s := Run(Init(), OverlappingKills());
      && s.taskCount == 0 && Runnable(s.slots, 1) && Miscounted(Init(), OverlappingKills()) == 1
      && UserTurn(1) !in Turns(s, Timers(n))
  {
    hide Turns, Timers, Miscounted, Run, OverlappingKills;
    var s := Run(Init(), OverlappingKills());
    EveryRunSane(OverlappingKills());
    OverlappingState();
    TimersQuiet(n, []);
    CountZeroStarves(s, Timers(n));
  }

  // ------------------------------------------------------------- picks and kernel turns

  /** The task of the first user turn, or -1 when there is none. */
  function FirstUser(turns: seq<Turn>): int {
    if turns == [] then -1
    else if turns[0].UserTurn? then turns[0].tid
    else FirstUser(turns[1..])
  }

  /** The running task has not had the processor since it was picked. */
  predicate Undispatched(s: State, r: int) {
    0 <= r < |s.slots| && s.runningTid == r && !s.slots[r].ran
  }

  /** The event ends a kill of task `r`. */
  predicate Hits(s: State, e: Event, r: int) {
    e.KillEnd? && e.ok && Killing(s, e.killer) && s.killers[e.killer] == r
  }

  /** No kill of task `r` ends in the run. */
  predicate Spares(s: State, es: seq<Event>, r: int)
    decreases |es|
  {
    es != [] ==> !Hits(s, es[0], r) && Spares(Step(s, es[0]), es[1..], r)
  }

  lemma UndispatchedStep(s: State, e: Event, r: int)
    requires Sane(s) && Undispatched(s, r) && !Hits(s, e, r)
    ensures e == Timer && TimerTurn(s).UserTurn? ==> TimerTurn(s).tid == r
    ensures !(e == Timer && TimerTurn(s).UserTurn?) ==> Undispatched(Step(s, e), r)
  {
    hide FirstRunnable, UsedCount, Refill;
  }

  lemma {:induction false} UndispatchedRun(s: State, es: seq<Event>, r: int)
    requires Sane(s) && Undispatched(s, r) && r >= 0 && Spares(s, es, r)
    ensures FirstUser(Turns(s, es)) == -1 || FirstUser(Turns(s, es)) == r
    ensures FirstUser(Turns(s, es)) == -1 ==> Undispatched(Run(s, es), r)
    decreases |es|
  {
    hide Step, TimerTurn, Sane, Undispatched, Hits;
    if es != [] {
      UndispatchedStep(s, es[0], r);
      StepSane(s, es[0]);
      var later := Turns(Step(s, es[0]), es[1..]);
      if es[0] == Timer {
        assert Turns(s, es)[1..] == later;
      } else {
        assert Turns(s, es) == later;
      }
      if !(es[0] == Timer && TimerTurn(s).UserTurn?) {
        UndispatchedRun(Step(s, es[0]), es[1..], r);
      }
    }
  }

  /** A task picked by the round-robin branch is never replaced before it got the processor, in
      any continuation in which no kill of it ends: the next user turn is its own. */
  lemma RoundRobinPickHonoured(s: State, es: seq<Event>)
    requires Sane(s) && s.runningTid != -1
    requires var next := Pick(s).runningTid;
      next != -1 && next != s.runningTid && Spares(TimerStep(s), es, next)
    ensures var first := FirstUser(Turns(s, [Timer] + es));
      first == Pick(s).runningTid
      || (first == -1 && Undispatched(Run(s, [Timer] + es), Pick(s).runningTid))
  {
    hide FirstRunnable, UsedCount, Refill, Turns, Spares;
    StepSane(s, Timer);
    var next := Pick(s).runningTid;
    TurnsOfTimer(s, es);
    if TimerTurn(s) == KernelTurn {
      UndispatchedRun(TimerStep(s), es, next);
    }
  }

  lemma TurnsOfTimer(s: State, es: seq<Event>)
    ensures Turns(s, [Timer] + es) == [TimerTurn(s)] + Turns(TimerStep(s), es)
    ensures Run(s, [Timer] + es) == Run(TimerStep(s), es)
    ensures FirstUser([TimerTurn(s)] + Turns(TimerStep(s), es)) ==
      if TimerTurn(s).UserTurn? then TimerTurn(s).tid else FirstUser(Turns(TimerStep(s), es))
  {
    hide TimerTurn, TimerStep;
    assert ([Timer] + es)[1..] == es;
    var later := Turns(TimerStep(s), es);
    assert ([TimerTurn(s)] + later)[1..] == later;
  }

  /** The pick made when no task is running keeps the old `ran` mark, so it can be lost: it gets the
      next user turn in every continuation in which no kill of it ends, exactly unless the kernel
      takes this turn and the picked task carries the mark.  It is then lost in a continuation in
      which only ended kills force the kernel in. */
  lemma IdlePickHonouredIff(s: State)
    requires Sane(s) && s.taskCount >= 1 && s.runningTid == -1 && Pick(s).runningTid != -1
    ensures var f := Pick(s).runningTid;
      (forall es :: Spares(TimerStep(s), es, f) && ForcedByKills(es) ==>
         FirstUser(Turns(s, [Timer] + es)) in {-1, f})
      <==> !(KernelDue(s) && s.slots[f].ran)
    ensures var f := Pick(s).runningTid;
      (forall es :: Spares(TimerStep(s), es, f) ==> FirstUser(Turns(s, [Timer] + es)) in {-1, f})
      <==> !(KernelDue(s) && s.slots[f].ran)
  {
    hide UsedCount, Turns, Spares, FirstUser, FirstRunnable, Sane, TimerStep, ForcedByKills;
    var f := Pick(s).runningTid;
    if KernelDue(s) && s.slots[f].ran {
      var lost := IdlePickLost(s, f);
    } else {
      forall es | Spares(TimerStep(s), es, f)
        ensures FirstUser(Turns(s, [Timer] + es)) in {-1, f}
      {
        IdlePickKept(s, f, es);
      }
    }
  }

  lemma IdlePickKept(s: State, f: int, es: seq<Event>)
    requires Sane(s) && s.runningTid == -1 && f == Pick(s).runningTid != -1
    requires !(KernelDue(s) && s.slots[f].ran) && Spares(TimerStep(s), es, f)
    ensures FirstUser(Turns(s, [Timer] + es)) in {-1, f}
  {
    hide UsedCount, Turns, Spares, FirstUser, FirstRunnable;
    StepSane(s, Timer);
    TurnsOfTimer(s, es);
    if KernelDue(s) {
      UndispatchedRun(TimerStep(s), es, f);
    }
  }

  /** Events that make sure that a task other than `f` is runnable. */
  function Rival(s: State, f: int): seq<Event>
    requires |s.slots| == MAX_TASK_COUNT
  {
    var g := if f == 0 then 1 else 0;
    if s.slots[g].used then [SetReady(g)]
    else
      var freed := Step(s, SetAllocable(g, true));
      [SetAllocable(g, true), Create, SetReady(FreeSlot(freed.slots, 0))]
  }

  /** The kernel is forced in only by the thread that just ended a kill. */
  ghost predicate ForcedByKills(es: seq<Event>) {
    forall i :: 0 <= i < |es| && es[i] == ForceKernel ==> i > 0 && es[i - 1].KillEnd? && es[i - 1].ok
  }

  lemma ForcedAppend(xs: seq<Event>, ys: seq<Event>)
    requires ForcedByKills(xs) && ForcedByKills(ys)
    ensures ForcedByKills(xs + ys)
  {
    var es := xs + ys;
    forall i | 0 <= i < |es| && es[i] == ForceKernel
      ensures i > 0 && es[i - 1].KillEnd? && es[i - 1].ok
    {
      if i >= |xs| {
        assert ys[i - |xs|] == ForceKernel && es[i - 1] == ys[i - |xs| - 1];
      } else {
        assert xs[i] == ForceKernel && es[i - 1] == xs[i - 1];
      }
    }
  }

  /** An interrupt that the kernel takes because a task other than `f` was killed; as many tasks are
      created as killed. */
  function Forced(s: State, f: int): (es: seq<Event>)
    requires |s.slots| == MAX_TASK_COUNT
    ensures |es| == 6
  {
    var g := if f == 0 then 1 else 0;
    var j := |s.killers|;
    if s.slots[g].used then
      [KillBegin(g), KillEnd(j, true), ForceKernel, SetAllocable(g, true), Create, Timer]
    else
      [SetAllocable(g, true), Create, KillBegin(FreeSlot(Step(s, SetAllocable(g, true)).slots, 0)),
       KillEnd(j, true), ForceKernel, Timer]
  }

  /** `n` of them. */
  ghost function Burn(s: State, f: int, n: nat): seq<Event>
    requires Sane(s) && Marked(s, f) && (n > 0 ==> s.slots[f].tick > n)
    decreases n
  {
    if n == 0 then []
    else
      BurnOne(s, f);
      Forced(s, f) + Burn(Run(s, Forced(s, f)), f, n - 1)
  }

  function Excess(s: State, f: int): nat
    requires 0 <= f < |s.slots|
  {
    if s.slots[f].tick > 1 then s.slots[f].tick - 1 else 0
  }

  /** The running task `f` carries the mark, and the kernel is not due. */
  predicate Marked(s: State, f: int) {
    && |s.slots| == MAX_TASK_COUNT && 0 <= f < |s.slots| && s.runningTid == f && s.slots[f].ran
    && s.counter == 0 < s.taskCount && !s.switchToKernel
  }

  lemma RivalReady(s: State, f: int)
    requires Sane(s) && Marked(s, f)
    ensures var t := Run(s, Rival(s, f));
      && Sane(t) && Marked(t, f) && t.slots[f].tick == s.slots[f].tick
      && Turns(s, Rival(s, f)) == [] && Spares(s, Rival(s, f), f) && ForcedByKills(Rival(s, f))
      && exists j :: 0 <= j < |t.slots| && j != f && Runnable(t.slots, j)
  {
    var g := if f == 0 then 1 else 0;
    if s.slots[g].used {
      RunOne(s, SetReady(g), f);
      assert Runnable(Step(s, SetReady(g)).slots, g);
    } else {
      var s1 := Step(s, SetAllocable(g, true));
      var h := FreeSlot(s1.slots, 0);
      assert !s1.slots[g].used && s1.slots[g].allocable;
      assert h != -1 && h != f;
      var s2 := Step(s1, Create);
      var s3 := Step(s2, SetReady(h));
      RunThree(s, SetAllocable(g, true), Create, SetReady(h), f);
      assert Runnable(s3.slots, h);
    }
  }

  /** Runs of three events and of one that are not interrupts and end no kill. */
  lemma RunThree(s: State, a: Event, b: Event, c: Event, f: int)
    requires a != Timer && b != Timer && c != Timer && !a.KillEnd? && !b.KillEnd? && !c.KillEnd?
    ensures Run(s, [a, b, c]) == Step(Step(Step(s, a), b), c)
    ensures Turns(s, [a, b, c]) == [] && Spares(s, [a, b, c], f)
  {
    hide Step, Run, Turns, Spares;
    RunOne(s, a, f);
    RunOne(Step(s, a), b, f);
    RunOne(Step(Step(s, a), b), c, f);
    RunAppend(s, [a], [b], f);
    RunAppend(s, [a] + [b], [c], f);
    assert [a] + [b] + [c] == [a, b, c];
  }

  lemma RunOne(s: State, a: Event, f: int)
    requires a != Timer && !a.KillEnd?
    ensures Run(s, [a]) == Step(s, a) && Turns(s, [a]) == [] && Spares(s, [a], f)
  {
    hide Step;
    assert [a][1..] == [];
  }

  lemma RunAppend(s: State, xs: seq<Event>, ys: seq<Event>, f: int)
    ensures Run(s, xs + ys) == Run(Run(s, xs), ys)
    ensures Turns(s, xs + ys) == Turns(s, xs) + Turns(Run(s, xs), ys)
    ensures Spares(s, xs + ys, f) <==> Spares(s, xs, f) && Spares(Run(s, xs), ys, f)
    decreases |xs|
  {
    hide Step, TimerTurn, Hits;
    if xs == [] {
      assert xs + ys == ys;
    } else {
      assert (xs + ys)[0] == xs[0] && (xs + ys)[1..] == xs[1..] + ys;
      RunAppend(Step(s, xs[0]), xs[1..], ys, f);
    }
  }

  /** The first event of what is left of a run. */
  lemma RunFrom(s: State, es: seq<Event>, i: nat, f: int)
    requires i < |es|
    ensures Run(s, es[i..]) == Run(Step(s, es[i]), es[i + 1..])
    ensures es[i] != Timer ==> Turns(s, es[i..]) == Turns(Step(s, es[i]), es[i + 1..])
    ensures es[i] == Timer ==> Turns(s, es[i..]) == [TimerTurn(s)] + Turns(Step(s, es[i]), es[i + 1..])
    ensures Spares(s, es[i..], f) <==> !Hits(s, es[i], f) && Spares(Step(s, es[i]), es[i + 1..], f)
  {
    hide Step, TimerTurn, Hits;
    assert es[i..][0] == es[i] && es[i..][1..] == es[i + 1..];
  }

  lemma TimerIsStep(s: State, f: int)
    ensures Step(s, Timer) == TimerStep(s) && !Hits(s, Timer, f)
  {
  }

  /** A run of five events that are not interrupts, and an interrupt. */
  lemma RunSix(s: State, es: seq<Event>, f: int)
    requires |es| == 6 && es[5] == Timer && forall i :: 0 <= i < 5 ==> es[i] != Timer
    ensures var s1 := Step(s, es[0]);
      var s2 := Step(s1, es[1]);
      var s3 := Step(s2, es[2]);
      var s4 := Step(s3, es[3]);
      var s5 := Step(s4, es[4]);
      && Run(s, es) == TimerStep(s5) && Turns(s, es) == [TimerTurn(s5)]
      && (Spares(s, es, f) <==> !Hits(s, es[0], f) && !Hits(s1, es[1], f) && !Hits(s2, es[2], f)
                                && !Hits(s3, es[3], f) && !Hits(s4, es[4], f))
  {
    hide Run, Turns, Spares, TimerStep, TimerTurn, Step, Hits;
    var s1 := Step(s, es[0]);
    var s2 := Step(s1, es[1]);
    var s3 := Step(s2, es[2]);
    var s4 := Step(s3, es[3]);
    var s5 := Step(s4, es[4]);
    TimerIsStep(s5, f);
    NoEvents(TimerStep(s5), f);
    RunFrom(s5, es, 5, f);
    RunFrom(s4, es, 4, f);
    RunFrom(s3, es, 3, f);
    RunFrom(s2, es, 2, f);
    RunFrom(s1, es, 1, f);
    RunFrom(s, es, 0, f);
    assert es[6..] == [] && es[0..] == es;
  }

  /** The state in which the forced interrupt comes. */
  function BeforeForced(s: State, f: int): State
    requires |s.slots| == MAX_TASK_COUNT
  {
    var es := Forced(s, f);
    Step(Step(Step(Step(Step(s, es[0]), es[1]), es[2]), es[3]), es[4])
  }

  /** Until then the running task only sees that the kernel is due. */
  lemma ForcedQuiet(s: State, f: int)
    requires Sane(s) && Marked(s, f)
    ensures var t := BeforeForced(s, f);
      && Sane(t) && t.runningTid == f && t.slots[f] == s.slots[f] && t.counter == 0 && t.switchToKernel
      && t.taskCount == s.taskCount
  {
    hide UsedCount, TimerStep, Pick, TimerTurn;
    var g := if f == 0 then 1 else 0;
    if s.slots[g].used {
      var s1 := Step(s, KillBegin(g));
      assert s1.killers[|s.killers|] == g;
      var s3 := Step(Step(s1, KillEnd(|s.killers|, true)), ForceKernel);
      var s4 := Step(s3, SetAllocable(g, true));
      assert !s4.slots[g].used && s4.slots[g].allocable;
      assert FreeSlot(s4.slots, 0) != -1;
    } else {
      var s1 := Step(s, SetAllocable(g, true));
      assert !s1.slots[g].used && s1.slots[g].allocable;
      var v := FreeSlot(s1.slots, 0);
      assert v != -1 && v != f;
      var s2 := Step(s1, Create);
      var s3 := Step(s2, KillBegin(v));
      assert s3.killers[|s.killers|] == v;
    }
  }

  lemma ForcedSpares(s: State, f: int)
    requires Sane(s) && Marked(s, f)
    ensures Spares(s, Forced(s, f), f) && ForcedByKills(Forced(s, f))
    ensures Run(s, Forced(s, f)) == TimerStep(BeforeForced(s, f))
    ensures Turns(s, Forced(s, f)) == [TimerTurn(BeforeForced(s, f))]
  {
    hide UsedCount, TimerStep, Pick, TimerTurn, Run, Turns, Spares, CreateTask;
    RunSix(s, Forced(s, f), f);
    var g := if f == 0 then 1 else 0;
    if s.slots[g].used {
      assert Step(s, KillBegin(g)).killers[|s.killers|] == g;
    } else {
      var s1 := Step(s, SetAllocable(g, true));
      assert !s1.slots[g].used && s1.slots[g].allocable;
      var v := FreeSlot(s1.slots, 0);
      assert v != -1 && v != f;
      CreatedLive(s1);
      assert Step(Step(s1, Create), KillBegin(v)).killers[|s.killers|] == v;
    }
  }

  lemma CreatedLive(s: State)
    requires FreeSlot(s.slots, 0) != -1
    ensures CreateTask(s).killers == s.killers && |CreateTask(s).slots| == |s.slots|
    ensures CreateTask(s).slots[FreeSlot(s.slots, 0)].used
  {
  }

  /** A forced kernel turn, in which the marked task only loses a tick. */
  lemma BurnOne(s: State, f: int)
    requires Sane(s) && Marked(s, f) && s.slots[f].tick > 1
    ensures var t := Run(s, Forced(s, f));
      && Sane(t) && Marked(t, f) && t.slots[f].tick == s.slots[f].tick - 1
      && Turns(s, Forced(s, f)) == [KernelTurn] && Spares(s, Forced(s, f), f) && ForcedByKills(Forced(s, f))
  {
    hide UsedCount, FirstRunnable, Refill, Forced, BeforeForced, Run, Turns, Spares;
    ForcedSpares(s, f);
    ForcedQuiet(s, f);
    StepSane(BeforeForced(s, f), Timer);
  }

  lemma {:induction false} Burns(s: State, f: int, n: nat)
    requires Sane(s) && Marked(s, f) && (n > 0 ==> s.slots[f].tick > n)
    ensures var t := Run(s, Burn(s, f, n));
      && Sane(t) && Marked(t, f) && t.slots[f].tick == s.slots[f].tick - n
      && Spares(s, Burn(s, f, n), f) && OnlyKernel(Turns(s, Burn(s, f, n))) && ForcedByKills(Burn(s, f, n))
    decreases n
  {
    hide Sane, Marked, Turns, Run, Spares, Runnable, Forced, ForcedByKills;
    MarkedRange(s, f);
    if n == 0 {
      NoEvents(s, f);
    } else {
      BurnOne(s, f);
      var t := Run(s, Forced(s, f));
      MarkedRange(t, f);
      Burns(t, f, n - 1);
      RunAppend(s, Forced(s, f), Burn(t, f, n - 1), f);
      ForcedAppend(Forced(s, f), Burn(t, f, n - 1));
    }
  }

  lemma MarkedRange(s: State, f: int)
    requires Marked(s, f)
    ensures 0 <= f < |s.slots| == MAX_TASK_COUNT
  {
  }

  lemma NoEvents(s: State, f: int)
    ensures Run(s, []) == s && Turns(s, []) == [] && Spares(s, [], f) && ForcedByKills([])
  {
  }

  ghost predicate OnlyKernel(turns: seq<Turn>) {
    forall i :: 0 <= i < |turns| ==> turns[i] == KernelTurn
  }

  lemma {:induction false} FirstUserSkips(kernel: seq<Turn>, rest: seq<Turn>)
    requires OnlyKernel(kernel)
    ensures FirstUser(kernel + rest) == FirstUser(rest)
    decreases |kernel|
  {
    if kernel == [] {
      assert kernel + rest == rest;
    } else {
      assert (kernel + rest)[0] == KernelTurn && (kernel + rest)[1..] == kernel[1..] + rest;
      FirstUserSkips(kernel[1..], rest);
    }
  }

  /** At its last tick the marked task hands over to a rival. */
  lemma LastTick(s: State, f: int)
    requires Sane(s) && Marked(s, f) && s.slots[f].tick <= 1
    requires exists j :: 0 <= j < |s.slots| && j != f && Runnable(s.slots, j)
    ensures Spares(s, [Timer], f) && FirstUser(Turns(s, [Timer])) !in {-1, f} && ForcedByKills([Timer])
  {
    hide UsedCount, FirstRunnable, Refill;
    var counted := s.slots[f := CountDown(s.slots[f])];
    SuccessorIsNearest(counted, f);
    assert [Timer][1..] == [];
    assert Turns(s, [Timer]) == [TimerTurn(s)];
    var j :| 0 <= j < |s.slots| && j != f && Runnable(s.slots, j);
    assert Runnable(counted, j);
  }

  /** A continuation in which the running task `f`, marked and not dispatched, loses its turn. */
  lemma Displaced(s: State, f: int) returns (es: seq<Event>)
    requires Sane(s) && Marked(s, f)
    ensures ForcedByKills(es) && Spares(s, es, f) && FirstUser(Turns(s, es)) !in {-1, f}
  {
    hide Sane, Turns, Run, Spares, Rival, Burn, FirstUser, Runnable, ForcedByKills, TimerTurn, Marked;
    MarkedRange(s, f);
    var burn := Burn(s, f, Excess(s, f));
    Burns(s, f, Excess(s, f));
    var s1 := Run(s, burn);
    MarkedRange(s1, f);
    RivalReady(s1, f);
    var s2 := Run(s1, Rival(s1, f));
    LastTick(s2, f);
    RunAppend(s, burn, Rival(s1, f), f);
    RunAppend(s, burn + Rival(s1, f), [Timer], f);
    assert Turns(s, burn) + [] == Turns(s, burn);
    FirstUserSkips(Turns(s, burn), Turns(s2, [Timer]));
    ForcedAppend(burn, Rival(s1, f));
    ForcedAppend(burn + Rival(s1, f), [Timer]);
    es := burn + Rival(s1, f) + [Timer];
  }

  lemma IdlePickLost(s: State, f: int) returns (es: seq<Event>)
    requires Sane(s) && s.taskCount >= 1 && s.runningTid == -1 && f == Pick(s).runningTid != -1
    requires KernelDue(s) && s.slots[f].ran
    ensures ForcedByKills(es) && Spares(TimerStep(s), es, f) && FirstUser(Turns(s, [Timer] + es)) !in {-1, f}
  {
    hide UsedCount, Turns, Spares, FirstUser, FirstRunnable, ForcedByKills;
    StepSane(s, Timer);
    es := Displaced(TimerStep(s), f);
    TurnsOfTimer(s, es);
  }

  /** The largest task count of any state of a run. */
  function MostTasks(s: State, es: seq<Event>): int
    decreases |es|
  {
    if es == [] then s.taskCount else Max(s.taskCount, MostTasks(Step(s, es[0]), es[1..]))
  }

  ghost predicate OnlyUsers(turns: seq<Turn>) {
    forall i :: 0 <= i < |turns| ==> turns[i].UserTurn?
  }

  lemma CounterStep(s: State, e: Event)
    ensures e == Timer && TimerTurn(s).UserTurn? && Sane(s) ==>
              Step(s, e).counter == s.counter + 1 <= s.taskCount
    ensures e != Timer ==> Step(s, e).counter == s.counter
    ensures e == Timer && TimerTurn(s) == KernelTurn && Sane(s) ==> Step(s, e).counter == 0
  {
    hide FirstRunnable, UsedCount, Refill;
  }

  lemma {:induction false} UserTurnsFrom(s: State, es: seq<Event>)
    requires Sane(s) && OnlyUsers(Turns(s, es))
    ensures Run(s, es).counter == s.counter + |Turns(s, es)|
    ensures |Turns(s, es)| > 0 ==> s.counter + |Turns(s, es)| <= MostTasks(s, es)
    decreases |es|
  {
    hide Step, TimerTurn, Sane;
    if es != [] {
      CounterStep(s, es[0]);
      StepSane(s, es[0]);
      var later := Turns(Step(s, es[0]), es[1..]);
      if es[0] == Timer {
        assert Turns(s, es)[0] == TimerTurn(s) && Turns(s, es)[1..] == later;
      } else {
        assert Turns(s, es) == later;
      }
      UserTurnsFrom(Step(s, es[0]), es[1..]);
    }
  }

  /** After a kernel turn, over every continuation, at most as many user turns come before the
      next kernel turn as the largest task count seen. */
  lemma KernelTurnsComeBack(s: State, es: seq<Event>)
    requires Sane(s) && TimerTurn(s) == KernelTurn
    requires OnlyUsers(Turns(TimerStep(s), es))
    ensures |Turns(TimerStep(s), es)| <= Max(0, MostTasks(TimerStep(s), es))
  {
    hide Turns, MostTasks, Sane, TimerStep, TimerTurn;
    StepSane(s, Timer);
    CounterStep(s, Timer);
    UserTurnsFrom(TimerStep(s), es);
  }

  /** The kernel waits its turn: when it takes one with no forced switch and with a task to run, at
      least as many user turns came since its last one as tasks are counted now. */
  lemma KernelTurnsWait(s: State, es: seq<Event>)
    requires Sane(s) && TimerTurn(s) == KernelTurn && OnlyUsers(Turns(TimerStep(s), es))
    requires var t := Run(TimerStep(s), es);
      TimerTurn(t) == KernelTurn && !t.switchToKernel && Pick(t).runningTid != -1
    ensures |Turns(TimerStep(s), es)| >= Run(TimerStep(s), es).taskCount
  {
    hide Turns, MostTasks, Sane, TimerStep, Run, Successor, FirstRunnable;
    StepSane(s, Timer);
    CounterStep(s, Timer);
    UserTurnsFrom(TimerStep(s), es);
  }

  // -------------------------------------------------------------- the default priority

  /** A used slot whose priority is the stored tick count. */
  predicate Unlevelled(s: State, tid: int) {
    Live(s, tid) && s.slots[tid].priority == TASK_TICK_NORMAL
  }

  ghost predicate NoPriority(es: seq<Event>, tid: int) {
    forall i :: 0 <= i < |es| ==> !(es[i].SetPriority? && es[i].tid == tid)
  }

  lemma UnlevelledStep(s: State, e: Event, tid: int)
    requires Sane(s) && Unlevelled(s, tid) && !Hits(s, e, tid)
    requires !(e.SetPriority? && e.tid == tid)
    ensures Unlevelled(Step(s, e), tid) && Step(s, e).slots[tid].tick <= s.slots[tid].tick
  {
    hide FirstRunnable, UsedCount, TimerStep, TimerTurn;
    if e == Timer {
      UnlevelledTimer(s, tid);
    }
  }

  lemma UnlevelledTimer(s: State, tid: int)
    requires Sane(s) && Unlevelled(s, tid)
    ensures Unlevelled(TimerStep(s), tid) && TimerStep(s).slots[tid].tick <= s.slots[tid].tick
  {
    hide FirstRunnable, UsedCount, Successor;
    var r := s.runningTid;
    if r != -1 {
      var next := Successor(s.slots[r := CountDown(s.slots[r])], r);
      SuccessorIsNearest(s.slots[r := CountDown(s.slots[r])], r);
    }
  }

  lemma {:induction false} UnlevelledRun(s: State, es: seq<Event>, tid: int)
    requires Sane(s) && Unlevelled(s, tid) && Spares(s, es, tid) && NoPriority(es, tid)
    ensures Sane(Run(s, es)) && Unlevelled(Run(s, es), tid)
    ensures Run(s, es).slots[tid].tick <= s.slots[tid].tick
    decreases |es|
  {
    hide Step, Sane, Hits;
    if es != [] {
      UnlevelledStep(s, es[0], tid);
      StepSane(s, es[0]);
      UnlevelledRun(Step(s, es[0]), es[1..], tid);
    }
  }

  /** Creation stores a tick count where a level belongs.  So in every run after it in which nobody
      sets the priority of the slot and no kill of it ends, its ticks never grow, and once they are
      used up each of its turns ends with the first interrupt after it was dispatched. */
  lemma CreatedNeverRefilled(s: State, es: seq<Event>, later: seq<Event>)
    requires Sane(s) && FreeSlot(s.slots, 0) != -1
    requires var tid := FreeSlot(s.slots, 0);
      && Spares(CreateTask(s), es, tid) && NoPriority(es, tid)
      && Spares(Run(CreateTask(s), es), later, tid) && NoPriority(later, tid)
    ensures var tid := FreeSlot(s.slots, 0);
      var t := Run(CreateTask(s), es);
      var u := Run(t, later);
      && CreateTask(s).slots[tid].tick == CreateTask(s).slots[tid].priority == 15
      && Live(t, tid) && Live(u, tid) && u.slots[tid].tick <= t.slots[tid].tick <= 15
      && (t.slots[tid].tick <= 0 && u.runningTid == tid && u.slots[tid].ran ==>
            TimerStep(u).runningTid != tid)
  {
    hide Run, Spares, NoPriority, UsedCount;
    var tid := FreeSlot(s.slots, 0);
    StepSane(s, Create);
    UnlevelledRun(CreateTask(s), es, tid);
    var t := Run(CreateTask(s), es);
    UnlevelledRun(t, later, tid);
    var u := Run(t, later);
    if t.slots[tid].tick <= 0 && u.runningTid == tid && u.slots[tid].ran {
      TurnEnds(u);
    }
  }

  // --------------------------------------------------------------- the length of a turn

  lemma TurnStep(s: State, e: Event)
    requires Sane(s) && s.runningTid != -1 && s.slots[s.runningTid].ran
    requires !Hits(s, e, s.runningTid) && (e == Timer ==> s.slots[s.runningTid].tick > 1)
    ensures var t := Step(s, e);
      && t.runningTid == s.runningTid && t.slots[t.runningTid].ran
      && t.slots[t.runningTid].tick == s.slots[s.runningTid].tick - (if e == Timer then 1 else 0)
  {
    hide FirstRunnable, UsedCount, Refill;
  }

  /** A dispatched task stays the running one for all its ticks but the last, through kernel turns
      and all events but the end of a kill of it, and each interrupt takes one tick. */
  lemma {:induction false} TurnLasts(s: State, es: seq<Event>)
    requires Sane(s) && s.runningTid != -1 && s.slots[s.runningTid].ran
    requires Spares(s, es, s.runningTid) && TimerCount(es) < Max(1, s.slots[s.runningTid].tick)
    ensures var t := Run(s, es);
      && Sane(t) && t.runningTid == s.runningTid && t.slots[t.runningTid].ran
      && t.slots[t.runningTid].tick == s.slots[s.runningTid].tick - TimerCount(es)
    decreases |es|
  {
    hide Step, Hits;
    if es != [] {
      StepSane(s, es[0]);
      TurnStep(s, es[0]);
      TurnLasts(Step(s, es[0]), es[1..]);
    }
  }

  /** Its last tick ends the turn: the next runnable task in cyclic order is picked, or none. */
  lemma TurnEnds(s: State)
    requires Sane(s) && s.runningTid != -1
    requires s.slots[s.runningTid].ran && s.slots[s.runningTid].tick <= 1
    ensures TimerStep(s).runningTid == Successor(s.slots, s.runningTid) != s.runningTid
  {
    hide Refill, UsedCount, FirstRunnable;
    var r := s.runningTid;
    var counted := s.slots[r := CountDown(s.slots[r])];
    SuccessorIsNearest(counted, r);
    SuccessorAlike(s.slots, counted, r);
  }

  /** Nobody picks slot `r` before the last event. */
  predicate Unpicked(s: State, es: seq<Event>, r: int)
    decreases |es|
  {
    es != [] ==> s.runningTid != r && Unpicked(Step(s, es[0]), es[1..], r)
  }

  lemma IdleStep(s: State, e: Event, r: int)
    requires Sane(s) && Live(s, r) && s.runningTid != r && !Hits(s, e, r)
    requires !(e.SetPriority? && e.tid == r)
    ensures Live(Step(s, e), r) && Step(s, e).slots[r].tick == s.slots[r].tick
  {
    hide FirstRunnable, UsedCount, TimerStep, TimerTurn;
    if e == Timer {
      IdleTimer(s, r);
    }
  }

  lemma IdleTimer(s: State, r: int)
    requires Sane(s) && Live(s, r) && s.runningTid != r
    ensures Live(TimerStep(s), r) && TimerStep(s).slots[r].tick == s.slots[r].tick
  {
    hide FirstRunnable, UsedCount, Refill;
  }

  lemma {:induction false} IdleRun(s: State, es: seq<Event>, r: int)
    requires Sane(s) && Live(s, r) && Spares(s, es, r) && NoPriority(es, r) && Unpicked(s, es, r)
    ensures Sane(Run(s, es)) && Live(Run(s, es), r) && Run(s, es).slots[r].tick == s.slots[r].tick
    decreases |es|
  {
    hide Step, Sane, Hits;
    if es != [] {
      IdleStep(s, es[0], r);
      StepSane(s, es[0]);
      IdleRun(Step(s, es[0]), es[1..], r);
    }
  }

  /** What a turn that ends leaves: after one of priority 1, 2 or 3, in every continuation in which
      nobody sets the priority of the slot and no kill of it ends, the slot has exactly 40, 15 or 5
      ticks until it is picked again. */
  lemma TurnRefills(s: State, es: seq<Event>)
    requires Sane(s) && s.runningTid != -1
    requires s.slots[s.runningTid].ran && s.slots[s.runningTid].tick <= 1
    requires s.slots[s.runningTid].priority in {1, 2, 3}
    requires Spares(TimerStep(s), es, s.runningTid) && NoPriority(es, s.runningTid)
    requires Unpicked(TimerStep(s), es, s.runningTid)
    ensures var t := Run(TimerStep(s), es);
      var level := s.slots[s.runningTid].priority;
      && Sane(t) && Live(t, s.runningTid)
      && t.slots[s.runningTid].tick == (if level == 1 then 40 else if level == 2 then 15 else 5)
  {
    hide Run, Spares, NoPriority, Unpicked, UsedCount, FirstRunnable, TimerTurn;
    StepSane(s, Timer);
    EndedTick(s);
    IdleRun(TimerStep(s), es, s.runningTid);
  }

  lemma EndedTick(s: State)
    requires Sane(s) && s.runningTid != -1
    requires s.slots[s.runningTid].ran && s.slots[s.runningTid].tick <= 1
    requires s.slots[s.runningTid].priority in {1, 2, 3}
    ensures var level := s.slots[s.runningTid].priority;
      && Live(TimerStep(s), s.runningTid)
      && TimerStep(s).slots[s.runningTid].tick == (if level == 1 then 40 else if level == 2 then 15 else 5)
  {
    hide UsedCount, FirstRunnable;
    SuccessorIsNearest(s.slots[s.runningTid := CountDown(s.slots[s.runningTid])], s.runningTid);
  }

  /** So the next turn, once dispatched by the interrupt that picked the slot, lasts exactly 40, 15 or 5
      interrupts, through all events that spare it. */
  lemma NextTurnLength(s: State, es: seq<Event>, later: seq<Event>)
    requires Sane(s) && s.runningTid != -1
    requires s.slots[s.runningTid].ran && s.slots[s.runningTid].tick <= 1
    requires s.slots[s.runningTid].priority in {1, 2, 3}
    requires Spares(TimerStep(s), es, s.runningTid) && NoPriority(es, s.runningTid)
    requires Unpicked(TimerStep(s), es, s.runningTid)
    requires var t := Run(TimerStep(s), es);
      && t.runningTid == s.runningTid && Live(t, t.runningTid) && t.slots[t.runningTid].ran
      && Spares(t, later, t.runningTid)
    requires TimerCount(later) <
      (if s.slots[s.runningTid].priority == 1 then 40 else if s.slots[s.runningTid].priority == 2 then 15 else 5)
    ensures var level := s.slots[s.runningTid].priority;
      var u := Run(Run(TimerStep(s), es), later);
      && u.runningTid == s.runningTid
      && (TimerCount(later) == (if level == 1 then 40 else if level == 2 then 15 else 5) - 1 ==>
            TimerStep(u).runningTid != s.runningTid)
  {
    var level := s.slots[s.runningTid].priority;
    hide Run, Spares, NoPriority, Unpicked, TimerStep, Sane;
    TurnRefills(s, es);
    TurnLasts(Run(TimerStep(s), es), later);
    if TimerCount(later) == (if level == 1 then 40 else if level == 2 then 15 else 5) - 1 {
      TurnEnds(Run(Run(TimerStep(s), es), later));
    }
  }

  lemma SuccessorAlike(a: seq<Slot>, b: seq<Slot>, r: int)
    requires |a| == |b| && 0 <= r < |a|
    requires forall i :: 0 <= i < |a| ==> (Runnable(a, i) <==> Runnable(b, i))
    ensures Successor(a, r) == Successor(b, r)
  {
    FirstAlike(a, b, r + 1, |a|);
    FirstAlike(a, b, 0, r);
  }

  lemma FirstAlike(a: seq<Slot>, b: seq<Slot>, lo: int, hi: int)
    requires |a| == |b| && 0 <= lo && hi <= |a|
    requires forall i :: 0 <= i < |a| ==> (Runnable(a, i) <==> Runnable(b, i))
    ensures FirstRunnable(a, lo, hi) == FirstRunnable(b, lo, hi)
  {
    hide Runnable;
    var x, y := FirstRunnable(a, lo, hi), FirstRunnable(b, lo, hi);
    assert x != -1 ==> Runnable(b, x);
    assert y != -1 ==> Runnable(a, y);
  }

  // ------------------------------------------------------------- what touches a slot

  /** A timer interrupt changes only the slots of the task that was running and of the one it picks,
      and of these only `tick`, `ran` and `running`; a hand-over moves the running mark. */
  lemma TimerTouches(s: State, i: int)
    requires Sane(s) && 0 <= i < |s.slots|
    ensures var t := TimerStep(s);
      var before, after := s.slots[i], t.slots[i];
      && |t.slots| == |s.slots| && t.taskCount == s.taskCount && t.killers == s.killers
      && after.(tick := before.tick, ran := before.ran, running := before.running) == before
      && (i != s.runningTid ==> after.tick == before.tick)
      && (i != s.runningTid && i != t.runningTid ==> after == before)
      && (s.runningTid != -1 && t.runningTid != -1 && t.runningTid != s.runningTid ==>
            t.slots[t.runningTid].running && !t.slots[s.runningTid].running)
      && (TimerTurn(s) == UserTurn(i) ==> i == t.runningTid && after.ran)
  {
    hide UsedCount, Pick;
    PickSane(s);
    PickTouches(s, i);
  }

  lemma PickTouches(s: State, i: int)
    requires Sane(s) && 0 <= i < |s.slots|
    ensures var t := Pick(s);
      var before := s.slots[i];
      && |t.slots| == |s.slots| && t.killers == s.killers
      && t.slots[i].(tick := before.tick, ran := before.ran, running := before.running) == before
      && (i != s.runningTid ==> t.slots[i].tick == before.tick)
      && (i != s.runningTid && i != t.runningTid ==> t.slots[i] == before)
      && (s.runningTid != -1 && t.runningTid != -1 && t.runningTid != s.runningTid ==>
            t.slots[t.runningTid].running && !t.slots[s.runningTid].running)
  {
    hide FirstRunnable, UsedCount, Refill;
  }

  /** A slot whose flag `ready` is down gets no turn before somebody sets it, whatever else happens,
      creations and kills of it included. */
  lemma {:induction false} UnreadyWaits(s: State, es: seq<Event>, tid: int)
    requires Sane(s) && 0 <= tid < |s.slots| && !s.slots[tid].ready && SetReady(tid) !in es
    ensures UserTurn(tid) !in Turns(s, es)
    decreases |es|
  {
    hide Step, TimerTurn, Sane;
    if es != [] {
      StillUnready(s, es[0], tid);
      StepSane(s, es[0]);
      UnreadyWaits(Step(s, es[0]), es[1..], tid);
    }
  }

  lemma StillUnready(s: State, e: Event, tid: int)
    requires Sane(s) && 0 <= tid < |s.slots| && !s.slots[tid].ready && e != SetReady(tid)
    ensures tid < |Step(s, e).slots| && !Step(s, e).slots[tid].ready
    ensures e == Timer ==> TimerTurn(s) != UserTurn(tid)
  {
    hide UsedCount, TimerStep, Pick;
    PickSane(s);
    if e == Timer {
      TimerTouches(s, tid);
      PickTouches(s, tid);
    }
  }

  /** So a created task waits: its slot, the first free one, is used, and gets no turn before it is
      made ready. */
  lemma CreatedWaits(s: State, es: seq<Event>)
    requires Sane(s) && exists i :: 0 <= i < |s.slots| && !s.slots[i].used && s.slots[i].allocable
    requires SetReady(FreeSlot(s.slots, 0)) !in es
    ensures var tid := FreeSlot(s.slots, 0);
      && Live(Step(s, Create), tid) && Step(s, Create).taskCount == s.taskCount + 1
      && UserTurn(tid) !in Turns(Step(s, Create), es)
  {
    StepSane(s, Create);
    hide Turns;
    UnreadyWaits(Step(s, Create), es, FreeSlot(s.slots, 0));
  }

  /** A slot that is not used gets no turn before a creation takes it. */
  lemma {:induction false} KilledStopped(s: State, es: seq<Event>, tid: int)
    requires Sane(s) && 0 <= tid < |s.slots| && !s.slots[tid].used
    requires Create !in es && CreateFails !in es
    ensures UserTurn(tid) !in Turns(s, es)
    decreases |es|
  {
    hide Step, TimerTurn, Sane;
    if es != [] {
      StillUnused(s, es[0], tid);
      StepSane(s, es[0]);
      KilledStopped(Step(s, es[0]), es[1..], tid);
    }
  }

  lemma StillUnused(s: State, e: Event, tid: int)
    requires Sane(s) && 0 <= tid < |s.slots| && !s.slots[tid].used && e != Create && e != CreateFails
    ensures tid < |Step(s, e).slots| && !Step(s, e).slots[tid].used
    ensures e == Timer ==> TimerTurn(s) != UserTurn(tid)
  {
    hide UsedCount, TimerStep, Pick;
    PickSane(s);
    if e == Timer {
      TimerTouches(s, tid);
      PickTouches(s, tid);
    }
  }

  /** A slot whose creation failed keeps the flag `ready` of the task it held before.  In a reachable
      state timer interrupts alone give it the processor exactly if that task had been made ready and
      the count is positive. */
  lemma FailedCreationRunsIff(past: seq<Event>)
    requires FreeSlot(Run(Init(), past).slots, 0) != -1
    ensures var s := Run(Init(), past);
      var tid := FreeSlot(s.slots, 0);
      (exists n: nat :: UserTurn(tid) in Turns(Step(s, CreateFails), Timers(n)))
        <==> s.slots[tid].ready && s.taskCount >= 1
  {
    var s := Run(Init(), past);
    var tid := FreeSlot(s.slots, 0);
    var t := Step(s, CreateFails);
    hide Run, Turns, Timers;
    EveryRunSane(past);
    RunThen(Init(), past, CreateFails);
    if s.slots[tid].ready {
      DispatchedIff(past + [CreateFails], tid);
    } else {
      StepSane(s, CreateFails);
      forall n: nat
        ensures UserTurn(tid) !in Turns(t, Timers(n))
      {
        OnlyTimers(n);
        UnreadyWaits(t, Timers(n), tid);
      }
    }
  }

  lemma {:induction false} OnlyTimers(n: nat)
    ensures forall e :: e in Timers(n) ==> e == Timer
  {
    if n > 0 {
      OnlyTimers(n - 1);
    }
  }

  lemma {:induction false} RunThen(s: State, es: seq<Event>, e: Event)
    ensures Run(s, es + [e]) == Step(Run(s, es), e)
    decreases |es|
  {
    hide Step;
    if es == [] {
      assert es + [e] == [e] + [];
    } else {
      assert (es + [e])[0] == es[0] && (es + [e])[1..] == es[1..] + [e];
      RunThen(Step(s, es[0]), es[1..], e);
    }
  }

  /** Such a run from boot: a task that was ready is killed, and the creation that takes its slot
      fails. */
  lemma FailedCreationRuns()
    ensures var s := Run(Init(), [Create, Create, SetReady(0), KillBegin(0), KillEnd(0, true)]);
      && FreeSlot(s.slots, 0) == 0 && s.slots[0].ready && s.taskCount == 1
  {
    hide UsedCount, Run, TimerStep;
    var es := [Create, Create, SetReady(0), KillBegin(0), KillEnd(0, true)];
    var s0 := Init();
    assert FreeSlot(s0.slots, 0) == 0;
    var s1 := Step(s0, Create);
    assert FreeSlot(s1.slots, 0) == FreeSlot(s1.slots, 1) == 1;
    var s2 := Step(s1, Create);
    var s3 := Step(s2, SetReady(0));
    var s4 := Step(s3, KillBegin(0));
    assert s4.killers == [0];
    RunFirst(s0, Create, es[1..]);
    RunFirst(s1, Create, es[2..]);
    RunFirst(s2, SetReady(0), es[3..]);
    RunFirst(s3, KillBegin(0), es[4..]);
    RunFirst(s4, KillEnd(0, true), []);
    assert es == [Create] + es[1..] && es[1..] == [Create] + es[2..];
    assert es[2..] == [SetReady(0)] + es[3..] && es[3..] == [KillBegin(0)] + es[4..];
    assert es[4..] == [KillEnd(0, true)] + [];
    RunOfNone(Step(s4, KillEnd(0, true)));
  }
}
