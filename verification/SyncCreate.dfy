/** Waiting for a task to end: `TskmgrCreateTaskByFileSync` against every interleaving of other
    creators, waiters, killers and system calls.  One event is one uninterrupted stretch of one
    thread. */
module SyncCreate {
  import opened Machine

  /** `born` numbers the incarnations of the slots in order of creation; no step depends on it. */
  datatype Slot = Slot(used: bool, allocable: bool, retvalue: int, born: nat)

  datatype Phase = Spinning | SawEnd | HasRead(value: int) | Released(result: int)

  /** A thread inside `TskmgrCreateTaskByFileSync`, past the creation. */
  datatype Waiter = Waiter(tid: int, born: nat, phase: Phase)

  /** `killers` are the ids that threads inside `_TskmgrKillTask` have checked, -1 once they are
      done; `left` is the last return value each incarnation set. */
  datatype State = State(slots: seq<Slot>, waiters: seq<Waiter>, killers: seq<int>,
                         left: seq<int>)

  datatype Event =
    | Create
    | CreateSync
    | Reserve(tid: int)
    | SetRetvalue(tid: int, value: int)
    | KillBegin(tid: int)
    | KillEnd(killer: nat, ok: bool)
    | Spin(waiter: nat)
    | Read(waiter: nat)
    | Release(waiter: nat)
    | WaitCall(tid: int)

  // --------------------------------------------------------------------- steps

  function Init(): (s: State) {
    State(seq(MAX_TASK_COUNT, i => Slot(false, true, 0, 0)), [], [], [0])
  }

  predicate Used(s: State, tid: int) {
    0 <= tid < |s.slots| && s.slots[tid].used
  }

  predicate Free(t: Slot) {
    !t.used && t.allocable
  }

  /** The first free slot from `i` on, or -1. */
  function FreeSlot(slots: seq<Slot>, i: nat): (tid: int)
    ensures tid == -1 || (i <= tid < |slots| && Free(slots[tid]))
    ensures forall j :: i <= j < (if tid == -1 then |slots| else tid) ==> !Free(slots[j])
    decreases |slots| - i
  {
    if i >= |slots| then -1 else if Free(slots[i]) then i else FreeSlot(slots, i + 1)
  }

  /** A new incarnation in slot `tid`. */
  function Started(s: State, tid: int, allocable: bool): State
    requires 0 <= tid < |s.slots|
  {
    s.(slots := s.slots[tid := Slot(true, allocable, 0, |s.left|)], left := s.left + [0])
  }

  function CreateStep(s: State): State {
    var tid := FreeSlot(s.slots, 0);
    if tid == -1 then s else Started(s, tid, true)
  }

  function CreateSyncStep(s: State): State {
    var tid := FreeSlot(s.slots, 0);
    if tid == -1 then s
    else Started(s, tid, false).(waiters := s.waiters + [Waiter(tid, |s.left|, Spinning)])
  }

  function SetSlot(s: State, tid: int, t: Slot): State {
    if 0 <= tid < |s.slots| then s.(slots := s.slots[tid := t]) else s
  }

  function SetPhase(s: State, w: nat, p: Phase): State {
    if w < |s.waiters| then s.(waiters := s.waiters[w := s.waiters[w].(phase := p)]) else s
  }

  /** The task of slot `tid` sets its return value. */
  function SetRetvalueStep(s: State, tid: int, v: int): State {
    if Used(s, tid) && s.slots[tid].born < |s.left| then
      SetSlot(s, tid, s.slots[tid].(retvalue := v)).(left := s.left[s.slots[tid].born := v])
    else s
  }

  /** The end of a kill: interrupts were on since its check, and `used` is not checked again. */
  function KillEndStep(s: State, k: nat, ok: bool): State {
    if k >= |s.killers| || !(0 <= s.killers[k] < |s.slots|) then s
    else
      var after := s.(killers := s.killers[k := -1]);
      if ok then SetSlot(after, s.killers[k], s.slots[s.killers[k]].(used := false)) else after
  }

  function SpinStep(s: State, w: nat): State {
    if w < |s.waiters| && s.waiters[w].phase.Spinning? && !Used(s, s.waiters[w].tid) then
      SetPhase(s, w, SawEnd)
    else s
  }

  function ReadStep(s: State, w: nat): State {
    if w < |s.waiters| && s.waiters[w].phase.SawEnd? && 0 <= s.waiters[w].tid < |s.slots| then
      SetPhase(s, w, HasRead(s.slots[s.waiters[w].tid].retvalue))
    else s
  }

  function ReleaseStep(s: State, w: nat): State {
    if w < |s.waiters| && s.waiters[w].phase.HasRead? && 0 <= s.waiters[w].tid < |s.slots| then
      var tid := s.waiters[w].tid;
      SetSlot(SetPhase(s, w, Released(s.waiters[w].phase.value)), tid,
              s.slots[tid].(allocable := true))
    else s
  }

  function Step(s: State, e: Event): State {
    match e
    case Create => CreateStep(s)
    case CreateSync => CreateSyncStep(s)
    case Reserve(tid) =>
      if Used(s, tid) then SetSlot(s, tid, s.slots[tid].(allocable := false)) else s
    case SetRetvalue(tid, v) => SetRetvalueStep(s, tid, v)
    case KillBegin(tid) => if Used(s, tid) then s.(killers := s.killers + [tid]) else s
    case KillEnd(k, ok) => KillEndStep(s, k, ok)
    case Spin(w) => SpinStep(s, w)
    case Read(w) => ReadStep(s, w)
    case Release(w) => ReleaseStep(s, w)
    case WaitCall(tid) =>
      if 0 <= tid < |s.slots| && !s.slots[tid].used then
        SetSlot(s, tid, s.slots[tid].(allocable := true))
      else s
  }

  function Run(s: State, es: seq<Event>): State
    decreases |es|
  {
    if es == [] then s else Run(Step(s, es[0]), es[1..])
  }

  // ----------------------------------------------------------------- the reservation

  predicate Holding(w: Waiter) {
    !w.phase.Released?
  }

  /** What a waiter that has not given its slot back relies on. */
  predicate Holds(s: State, w: Waiter) {
    && 0 <= w.tid < |s.slots|
    && s.slots[w.tid].born == w.born && !s.slots[w.tid].allocable
    && (!w.phase.Spinning? ==> !s.slots[w.tid].used)
  }

  /** A value a waiter has read is the last one its incarnation set. */
  predicate ReadRight(s: State, w: Waiter) {
    && w.born < |s.left|
    && (w.phase.HasRead? ==> w.phase.value == s.left[w.born])
    && (w.phase.Released? ==> w.phase.result == s.left[w.born])
  }

  /** The incarnation `born` will never run again. */
  predicate Over(s: State, born: nat) {
    forall i :: 0 <= i < |s.slots| && s.slots[i].used ==> s.slots[i].born != born
  }

  ghost predicate SlotsSound(s: State) {
    && |s.slots| == MAX_TASK_COUNT && |s.left| > 0
    && (forall i :: 0 <= i < |s.slots| ==>
          s.slots[i].born < |s.left| && s.slots[i].retvalue == s.left[s.slots[i].born])
    && (forall i, j :: 0 <= i < |s.slots| && 0 <= j < |s.slots| && i != j && s.slots[i].used ==>
          s.slots[i].born != s.slots[j].born)
  }

  ghost predicate WaitersSound(s: State) {
    && (forall w :: 0 <= w < |s.waiters| ==>
          ReadRight(s, s.waiters[w]) && s.waiters[w].born > 0)
    && (forall w :: 0 <= w < |s.waiters| && Holding(s.waiters[w]) ==> Holds(s, s.waiters[w]))
    && (forall w :: 0 <= w < |s.waiters| && s.waiters[w].phase.Released? ==>
          Over(s, s.waiters[w].born))
  }

  /** No two waiters share a slot. */
  ghost predicate NoSharing(s: State) {
    forall v, w :: 0 <= v < w < |s.waiters| && Holding(s.waiters[v]) && Holding(s.waiters[w]) ==>
      s.waiters[v].tid != s.waiters[w].tid
  }

  ghost predicate Inv(s: State) {
    SlotsSound(s) && WaitersSound(s) && NoSharing(s)
  }

  /** The wait call names an ended slot whose waiter has not given it back. */
  predicate Meddles(s: State, e: Event) {
    e.WaitCall? && !Used(s, e.tid)
    && exists w :: 0 <= w < |s.waiters| && Holding(s.waiters[w]) && s.waiters[w].tid == e.tid
  }

  predicate Undisturbed(s: State, es: seq<Event>)
    decreases |es|
  {
    es != [] ==> !Meddles(s, es[0]) && Undisturbed(Step(s, es[0]), es[1..])
  }

  // ------------------------------------------------------------------ every step keeps it

  lemma StartKeeps(s: State, tid: int, allocable: bool)
    requires Inv(s) && 0 <= tid < |s.slots| && Free(s.slots[tid])
    ensures Inv(Started(s, tid, allocable))
    ensures forall w :: 0 <= w < |s.waiters| && Holding(s.waiters[w]) ==> s.waiters[w].tid != tid
  {
    var t := Started(s, tid, allocable);
    assert SlotsSound(t);
    forall w | 0 <= w < |s.waiters| && Holding(s.waiters[w])
      ensures s.waiters[w].tid != tid && Holds(t, s.waiters[w])
    {
      assert Holds(s, s.waiters[w]);
    }
    forall w | 0 <= w < |s.waiters|
      ensures ReadRight(t, s.waiters[w])
    {
      assert ReadRight(s, s.waiters[w]);
    }
    forall w | 0 <= w < |s.waiters| && s.waiters[w].phase.Released?
      ensures Over(t, s.waiters[w].born)
    {
      assert ReadRight(s, s.waiters[w]) && Over(s, s.waiters[w].born);
    }
  }

  lemma CreateSyncKeeps(s: State)
    requires Inv(s)
    ensures Inv(CreateSyncStep(s))
  {
    var tid := FreeSlot(s.slots, 0);
    if tid != -1 {
      StartKeeps(s, tid, false);
      var started := Started(s, tid, false);
      var t := CreateSyncStep(s);
      assert SlotsSound(t);
      AddWaiter(started, t, tid, |s.left|);
    }
  }

  lemma AddWaiter(s: State, t: State, tid: int, born: nat)
    requires Inv(s) && t == s.(waiters := s.waiters + [Waiter(tid, born, Spinning)])
    requires 0 < born < |s.left| && 0 <= tid < |s.slots|
    requires s.slots[tid].born == born && !s.slots[tid].allocable
    requires forall w :: 0 <= w < |s.waiters| && Holding(s.waiters[w]) ==> s.waiters[w].tid != tid
    ensures Inv(t)
  {
    forall w | 0 <= w < |t.waiters|
      ensures ReadRight(t, t.waiters[w]) && t.waiters[w].born > 0
      ensures Holding(t.waiters[w]) ==> Holds(t, t.waiters[w])
      ensures t.waiters[w].phase.Released? ==> Over(t, t.waiters[w].born)
    {
      if w < |s.waiters| {
        assert ReadRight(s, s.waiters[w]);
        assert Holding(s.waiters[w]) ==> Holds(s, s.waiters[w]);
        assert s.waiters[w].phase.Released? ==> Over(s, s.waiters[w].born);
      }
    }
  }

  /** Changing `allocable` of a slot nobody holds, or only lowering flags, keeps the invariant. */
  lemma SlotChangeKeeps(s: State, tid: int, t: Slot)
    requires Inv(s) && 0 <= tid < |s.slots|
    requires t.born == s.slots[tid].born && t.retvalue == s.slots[tid].retvalue
    requires t.used ==> s.slots[tid].used
    requires t.allocable && !s.slots[tid].allocable ==>
      forall w :: 0 <= w < |s.waiters| && Holding(s.waiters[w]) ==> s.waiters[w].tid != tid
    ensures Inv(SetSlot(s, tid, t))
  {
    var after := SetSlot(s, tid, t);
    assert SlotsSound(after);
    forall w | 0 <= w < |s.waiters|
      ensures ReadRight(after, s.waiters[w])
      ensures Holding(s.waiters[w]) ==> Holds(after, s.waiters[w])
      ensures s.waiters[w].phase.Released? ==> Over(after, s.waiters[w].born)
    {
      assert ReadRight(s, s.waiters[w]);
      assert Holding(s.waiters[w]) ==> Holds(s, s.waiters[w]);
      assert s.waiters[w].phase.Released? ==> Over(s, s.waiters[w].born);
    }
  }

  lemma SetRetvalueKeeps(s: State, tid: int, v: int)
    requires Inv(s)
    ensures Inv(SetRetvalueStep(s, tid, v))
  {
    if Used(s, tid) {
      var b := s.slots[tid].born;
      var t := SetRetvalueStep(s, tid, v);
      assert SlotsSound(t);
      forall w | 0 <= w < |s.waiters|
        ensures ReadRight(t, s.waiters[w])
        ensures Holding(s.waiters[w]) ==> Holds(t, s.waiters[w])
        ensures s.waiters[w].phase.Released? ==> Over(t, s.waiters[w].born)
      {
        assert ReadRight(s, s.waiters[w]);
        assert Holding(s.waiters[w]) ==> Holds(s, s.waiters[w]);
        assert s.waiters[w].phase.Released? ==> Over(s, s.waiters[w].born);
      }
    }
  }

  lemma PhaseKeeps(s: State, w: nat, p: Phase)
    requires Inv(s) && w < |s.waiters| && Holding(s.waiters[w])
    requires !p.Spinning? && !s.slots[s.waiters[w].tid].used
    requires p.HasRead? ==> p.value == s.slots[s.waiters[w].tid].retvalue
    requires p.Released? ==> s.waiters[w].phase == HasRead(p.result)
    ensures Inv(SetPhase(s, w, p))
  {
    var t := SetPhase(s, w, p);
    var me := s.waiters[w];
    assert Holds(s, me) && ReadRight(s, me);
    assert Over(s, me.born);
    assert SlotsSound(t);
    forall v | 0 <= v < |t.waiters|
      ensures ReadRight(t, t.waiters[v])
      ensures Holding(t.waiters[v]) ==> Holds(t, t.waiters[v])
      ensures t.waiters[v].phase.Released? ==> Over(t, t.waiters[v].born)
    {
      assert ReadRight(s, s.waiters[v]);
      assert Holding(s.waiters[v]) ==> Holds(s, s.waiters[v]);
      assert s.waiters[v].phase.Released? ==> Over(s, s.waiters[v].born);
    }
  }

  lemma ReleaseKeeps(s: State, w: nat)
    requires Inv(s)
    ensures Inv(ReleaseStep(s, w))
  {
    hide SlotsSound;
    if w < |s.waiters| && s.waiters[w].phase.HasRead? {
      var me := s.waiters[w];
      assert Holds(s, me);
      var mid := SetPhase(s, w, Released(me.phase.value));
      PhaseKeeps(s, w, Released(me.phase.value));
      SlotChangeKeeps(mid, me.tid, s.slots[me.tid].(allocable := true));
    }
  }

  lemma KillersKeep(s: State, killers: seq<int>)
    requires Inv(s)
    ensures Inv(s.(killers := killers))
  {
    var t := s.(killers := killers);
    assert SlotsSound(t);
    forall w | 0 <= w < |s.waiters|
      ensures ReadRight(t, s.waiters[w])
      ensures Holding(s.waiters[w]) ==> Holds(t, s.waiters[w])
      ensures s.waiters[w].phase.Released? ==> Over(t, s.waiters[w].born)
    {
      assert ReadRight(s, s.waiters[w]);
      assert Holding(s.waiters[w]) ==> Holds(s, s.waiters[w]);
      assert s.waiters[w].phase.Released? ==> Over(s, s.waiters[w].born);
    }
  }

  lemma ReadKeeps(s: State, w: nat)
    requires Inv(s)
    ensures Inv(SpinStep(s, w)) && Inv(ReadStep(s, w))
  {
    hide SlotsSound, ReadRight;
    if w < |s.waiters| && Holding(s.waiters[w]) {
      var me := s.waiters[w];
      assert Holds(s, me);
      if me.phase.Spinning? && !Used(s, me.tid) {
        PhaseKeeps(s, w, SawEnd);
      }
      if me.phase.SawEnd? {
        PhaseKeeps(s, w, HasRead(s.slots[me.tid].retvalue));
      }
    }
  }

  lemma StepKeeps(s: State, e: Event)
    requires Inv(s) && !Meddles(s, e)
    ensures Inv(Step(s, e))
  {
    hide Inv;
    match e {
      case Create =>
        if FreeSlot(s.slots, 0) != -1 {
          StartKeeps(s, FreeSlot(s.slots, 0), true);
        }
      case CreateSync => CreateSyncKeeps(s);
      case Reserve(tid) =>
        if Used(s, tid) {
          SlotChangeKeeps(s, tid, s.slots[tid].(allocable := false));
        }
      case SetRetvalue(tid, v) => SetRetvalueKeeps(s, tid, v);
      case KillBegin(tid) => KillersKeep(s, s.killers + [tid]);
      case KillEnd(k, ok) =>
        if k < |s.killers| {
          KillersKeep(s, s.killers[k := -1]);
          var tid := s.killers[k];
          if 0 <= tid < |s.slots| {
            SlotChangeKeeps(s.(killers := s.killers[k := -1]), tid,
                            s.slots[tid].(used := false));
          }
        }
      case Spin(w) => ReadKeeps(s, w);
      case Read(w) => ReadKeeps(s, w);
      case Release(w) => ReleaseKeeps(s, w);
      case WaitCall(tid) =>
        if 0 <= tid < |s.slots| && !s.slots[tid].used {
          SlotChangeKeeps(s, tid, s.slots[tid].(allocable := true));
        }
    }
  }

  lemma {:induction false} RunKeeps(s: State, es: seq<Event>)
    requires Inv(s) && Undisturbed(s, es)
    ensures Inv(Run(s, es))
    decreases |es|
  {
    hide Inv, Step, Meddles;
    if es != [] {
      StepKeeps(s, es[0]);
      RunKeeps(Step(s, es[0]), es[1..]);
    }
  }

  lemma InitInv()
    ensures Inv(Init())
  {
  }

  // ------------------------------------------------------------------- whole runs

  /** The last return value that incarnation `born` sets in a run, `last` if it sets none. */
  function LastSet(s: State, es: seq<Event>, born: nat, last: int): int
    decreases |es|
  {
    if es == [] then last
    else
      var sets := es[0].SetRetvalue? && Used(s, es[0].tid) && s.slots[es[0].tid].born == born;
      LastSet(Step(s, es[0]), es[1..], born, if sets then es[0].value else last)
  }

  lemma LeftStep(s: State, e: Event, born: nat)
    requires SlotsSound(s)
    ensures |s.left| <= |Step(s, e).left|
    ensures born < |s.left| ==>
              (Step(s, e).left[born] ==
               if e.SetRetvalue? && Used(s, e.tid) && s.slots[e.tid].born == born then e.value
               else s.left[born])
    ensures |s.left| <= born < |Step(s, e).left| ==> Step(s, e).left[born] == 0
    ensures |s.left| <= born ==>
      !(e.SetRetvalue? && Used(s, e.tid) && s.slots[e.tid].born == born)
  {
  }

  lemma {:induction false} LeftIsLast(s: State, es: seq<Event>, born: nat, last: int)
    requires Inv(s) && Undisturbed(s, es)
    requires last == if born < |s.left| then s.left[born] else 0
    ensures |s.left| <= |Run(s, es).left|
    ensures born < |Run(s, es).left| ==> Run(s, es).left[born] == LastSet(s, es, born, last)
    decreases |es|
  {
    hide Inv, Step, Meddles;
    if es != [] {
      SlotsOf(s);
      LeftStep(s, es[0], born);
      StepKeeps(s, es[0]);
      var sets := es[0].SetRetvalue? && Used(s, es[0].tid) && s.slots[es[0].tid].born == born;
      LeftIsLast(Step(s, es[0]), es[1..], born, if sets then es[0].value else last);
    }
  }

  lemma SlotsOf(s: State)
    requires Inv(s)
    ensures SlotsSound(s) && WaitersSound(s) && NoSharing(s)
  {
  }

  /** In every interleaving from boot in which no wait call meddles, the value a waiter reads is
      the last one that the task it started ever set. */
  lemma ReturnValueIsOwn(es: seq<Event>, w: nat)
    requires Undisturbed(Init(), es) && w < |Run(Init(), es).waiters|
    ensures var me := Run(Init(), es).waiters[w];
      && (me.phase.HasRead? ==> me.phase.value == LastSet(Init(), es, me.born, 0))
      && (me.phase.Released? ==> me.phase.result == LastSet(Init(), es, me.born, 0))
  {
    hide Inv, Run, Undisturbed, LastSet, SlotsSound, NoSharing;
    InitInv();
    RunKeeps(Init(), es);
    var s := Run(Init(), es);
    SlotsOf(s);
    assert ReadRight(s, s.waiters[w]);
    LeftIsLast(Init(), es, s.waiters[w].born, 0);
  }

  /** In every such interleaving a slot is not reused before its waiter gives it back, and no two
      waiters share a slot. */
  lemma SlotsStayReserved(es: seq<Event>)
    requires Undisturbed(Init(), es)
    ensures Kept(Run(Init(), es)) && NoSharing(Run(Init(), es))
  {
    hide Run, Undisturbed, Inv;
    InitInv();
    RunKeeps(Init(), es);
    SlotsOf(Run(Init(), es));
    KeptByInv(Run(Init(), es));
  }

  /** Each waiter that has not given its slot back still finds its own incarnation in it. */
  ghost predicate Kept(s: State) {
    forall w :: 0 <= w < |s.waiters| && Holding(s.waiters[w]) ==>
      0 <= s.waiters[w].tid < |s.slots| && s.slots[s.waiters[w].tid].born == s.waiters[w].born
  }

  lemma KeptByInv(s: State)
    requires Inv(s)
    ensures Kept(s)
  {
    forall w | 0 <= w < |s.waiters| && Holding(s.waiters[w])
      ensures 0 <= s.waiters[w].tid < |s.slots|
      ensures s.slots[s.waiters[w].tid].born == s.waiters[w].born
    {
      assert Holds(s, s.waiters[w]);
    }
  }

  // ------------------------------------------------------------- every waiter returns

  function Progress(p: Phase): (n: nat)
    ensures n <= 3
  {
    match p
    case Spinning => 0
    case SawEnd => 1
    case HasRead(_) => 2
    case Released(_) => 3
  }

  /** Waiter `w` got at least as far as `n`, its slot has ended if it still holds it, and is free, until
      somebody takes it, once it gave it back. */
  ghost predicate Reached(s: State, w: nat, tid: int, born: nat, n: nat) {
    && w < |s.waiters| && 0 <= tid < |s.slots| && s.waiters[w].tid == tid && s.waiters[w].born == born
    && Progress(s.waiters[w].phase) >= n
    && (Holding(s.waiters[w]) ==> !s.slots[tid].used)
    && (!Holding(s.waiters[w]) && s.slots[tid].born == born ==> Free(s.slots[tid]))
  }

  lemma ReachedStep(s: State, e: Event, w: nat, tid: int, born: nat, n: nat)
    requires Inv(s) && !Meddles(s, e) && Reached(s, w, tid, born, n)
    ensures Reached(Step(s, e), w, tid, born, n)
    ensures e == Spin(w) ==> Reached(Step(s, e), w, tid, born, if n < 1 then 1 else n)
    ensures e == Read(w) && n >= 1 ==> Reached(Step(s, e), w, tid, born, if n < 2 then 2 else n)
    ensures e == Release(w) && n >= 2 ==> Reached(Step(s, e), w, tid, born, 3)
  {
    var me := s.waiters[w];
    assert Holding(me) ==> Holds(s, me);
    assert ReadRight(s, me);
  }

  lemma {:induction false} ReachedRun(s: State, es: seq<Event>, w: nat, tid: int, born: nat, n: nat)
    requires Inv(s) && Undisturbed(s, es) && Reached(s, w, tid, born, n)
    ensures Inv(Run(s, es)) && Reached(Run(s, es), w, tid, born, n)
    decreases |es|
  {
    hide Inv, Step, Meddles, Reached;
    if es != [] {
      ReachedStep(s, es[0], w, tid, born, n);
      StepKeeps(s, es[0]);
      ReachedRun(Step(s, es[0]), es[1..], w, tid, born, n);
    }
  }

  /** Any events, and then one more. */
  lemma {:induction false} RunThen(s: State, es: seq<Event>, e: Event, rest: seq<Event>)
    requires Undisturbed(s, es + [e] + rest)
    ensures Undisturbed(s, es) && !Meddles(Run(s, es), e) && Undisturbed(Step(Run(s, es), e), rest)
    ensures Run(s, es + [e] + rest) == Run(Step(Run(s, es), e), rest)
    decreases |es|
  {
    hide Step, Meddles;
    if es == [] {
      assert es + [e] + rest == [e] + rest && ([e] + rest)[1..] == rest;
    } else {
      assert (es + [e] + rest)[0] == es[0] && (es + [e] + rest)[1..] == es[1..] + [e] + rest;
      RunThen(Step(s, es[0]), es[1..], e, rest);
    }
  }

  lemma ReachedThen(s: State, es: seq<Event>, e: Event, rest: seq<Event>, w: nat, tid: int,
                    born: nat, n: nat)
    requires Inv(s) && Undisturbed(s, es + [e] + rest) && Reached(s, w, tid, born, n)
    ensures var t := Step(Run(s, es), e);
      && Inv(t) && Undisturbed(t, rest) && Run(s, es + [e] + rest) == Run(t, rest)
      && (e == Spin(w) ==> Reached(t, w, tid, born, if n < 1 then 1 else n))
      && (e == Read(w) && n >= 1 ==> Reached(t, w, tid, born, if n < 2 then 2 else n))
      && (e == Release(w) && n >= 2 ==> Reached(t, w, tid, born, 3))
  {
    hide Inv, Step, Meddles, Reached, Run, Undisturbed;
    RunThen(s, es, e, rest);
    ReachedRun(s, es, w, tid, born, n);
    ReachedStep(Run(s, es), e, w, tid, born, n);
    StepKeeps(Run(s, es), e);
  }

  /** From every undisturbed state, once the task that a waiter started has ended, the waiter's own
      three steps, with any other undisturbed events before, between and after them, bring it back
      with the last value that task ever set; and its slot is free again until somebody takes it. */
  lemma WaiterReturns(past: seq<Event>, w: nat, a: seq<Event>, b: seq<Event>, c: seq<Event>,
                      d: seq<Event>)
    requires var rest := a + [Spin(w)] + (b + [Read(w)] + (c + [Release(w)] + d));
      var s := Run(Init(), past);
      && Undisturbed(Init(), past) && Undisturbed(s, rest)
      && w < |s.waiters| && s.waiters[w].phase.Spinning? && !Used(s, s.waiters[w].tid)
    ensures var rest := a + [Spin(w)] + (b + [Read(w)] + (c + [Release(w)] + d));
      var me := Run(Init(), past).waiters[w];
      var t := Run(Run(Init(), past), rest);
      && w < |t.waiters| && t.waiters[w].tid == me.tid && 0 <= me.tid < |t.slots|
      && t.waiters[w].phase == Released(LastSet(Init(), past + rest, me.born, 0))
      && (t.slots[me.tid].born == me.born ==> Free(t.slots[me.tid]))
  {
    hide Inv, Run, Undisturbed, LastSet, Step, SlotsSound, NoSharing;
    InitInv();
    RunKeeps(Init(), past);
    var s := Run(Init(), past);
    var me := s.waiters[w];
    SlotsOf(s);
    assert Holds(s, me);
    var rest2 := c + [Release(w)] + d;
    var rest1 := b + [Read(w)] + rest2;
    ReachedThen(s, a, Spin(w), rest1, w, me.tid, me.born, 0);
    var s1 := Step(Run(s, a), Spin(w));
    ReachedThen(s1, b, Read(w), rest2, w, me.tid, me.born, 1);
    var s2 := Step(Run(s1, b), Read(w));
    ReachedThen(s2, c, Release(w), d, w, me.tid, me.born, 2);
    var s3 := Step(Run(s2, c), Release(w));
    ReachedRun(s3, d, w, me.tid, me.born, 3);
    var rest := a + [Spin(w)] + rest1;
    Concat(Init(), past, rest);
    ReturnValueIsOwn(past + rest, w);
  }

  lemma {:induction false} Concat(s: State, xs: seq<Event>, ys: seq<Event>)
    ensures Run(s, xs + ys) == Run(Run(s, xs), ys)
    ensures Undisturbed(s, xs + ys) <==> Undisturbed(s, xs) && Undisturbed(Run(s, xs), ys)
    decreases |xs|
  {
    hide Step, Meddles;
    if xs == [] {
      assert xs + ys == ys;
    } else {
      assert (xs + ys)[0] == xs[0] && (xs + ys)[1..] == xs[1..] + ys;
      Concat(Step(s, xs[0]), xs[1..], ys);
    }
  }

  /** A waiter whose task still runs waits, however often it looks. */
  lemma WaiterStays(past: seq<Event>, w: nat)
    requires Undisturbed(Init(), past) && w < |Run(Init(), past).waiters|
    requires var s := Run(Init(), past);
      Holding(s.waiters[w]) && Used(s, s.waiters[w].tid)
    ensures var s := Run(Init(), past);
      && s.waiters[w].phase.Spinning?
      && Step(s, Spin(w)) == Step(s, Read(w)) == Step(s, Release(w)) == s
  {
    hide Run, Undisturbed, SlotsSound, NoSharing, Inv;
    InitInv();
    RunKeeps(Init(), past);
    var s := Run(Init(), past);
    SlotsOf(s);
    assert Holds(s, s.waiters[w]);
  }

  // ------------------------------------------------------------- reserved slots

  /** The event gives slot `tid` back. */
  predicate GivesBack(s: State, e: Event, tid: int) {
    || e == WaitCall(tid)
    || (e.Release? && e.waiter < |s.waiters| && s.waiters[e.waiter].tid == tid)
  }

  predicate NotGivenBack(s: State, es: seq<Event>, tid: int)
    decreases |es|
  {
    es != [] ==> !GivesBack(s, es[0], tid) && NotGivenBack(Step(s, es[0]), es[1..], tid)
  }

  /** A used slot that is reserved keeps its incarnation, used or ended, over every continuation in
      which no wait call names it and no waiter gives it back. */
  lemma ReservedStays(s: State, tid: int, es: seq<Event>)
    requires Used(s, tid) && NotGivenBack(Step(s, Reserve(tid)), es, tid)
    ensures var t := Run(Step(s, Reserve(tid)), es);
      && tid < |t.slots| && !t.slots[tid].allocable && t.slots[tid].born == s.slots[tid].born
  {
    hide Run, NotGivenBack;
    ReservedRun(Step(s, Reserve(tid)), tid, es);
  }

  lemma {:induction false} ReservedRun(s: State, tid: int, es: seq<Event>)
    requires 0 <= tid < |s.slots| && !s.slots[tid].allocable && NotGivenBack(s, es, tid)
    ensures var t := Run(s, es);
      tid < |t.slots| && !t.slots[tid].allocable && t.slots[tid].born == s.slots[tid].born
    decreases |es|
  {
    hide Step, GivesBack;
    if es != [] {
      ReservedStep(s, tid, es[0]);
      ReservedRun(Step(s, es[0]), tid, es[1..]);
    }
  }

  lemma ReservedStep(s: State, tid: int, e: Event)
    requires 0 <= tid < |s.slots| && !s.slots[tid].allocable && !GivesBack(s, e, tid)
    ensures tid < |Step(s, e).slots| && !Step(s, e).slots[tid].allocable
    ensures Step(s, e).slots[tid].born == s.slots[tid].born
  {
  }

  /** A used slot stays used, in the same incarnation, until a kill of it ends that is not refused. */
  lemma EndsByKillOnly(s: State, tid: int, e: Event)
    requires Used(s, tid)
    ensures Used(Step(s, e), tid) ==> Step(s, e).slots[tid].born == s.slots[tid].born
    ensures !Used(Step(s, e), tid) <==>
      e.KillEnd? && e.ok && e.killer < |s.killers| && s.killers[e.killer] == tid
  {
  }

  // ------------------------------------------------------- when a wait call does harm

  /** Creations until slot `tid` is taken. */
  function Fill(s: State, tid: int): (es: seq<Event>)
    decreases if FreeSlot(s.slots, 0) == -1 then 0 else |s.slots| - FreeSlot(s.slots, 0)
  {
    var f := FreeSlot(s.slots, 0);
    if f == -1 || f >= tid then [Create]
    else [Create] + Fill(CreateStep(s), tid)
  }

  lemma {:induction false} Filled(s: State, tid: int)
    requires 0 <= tid < |s.slots| && Free(s.slots[tid])
    ensures Undisturbed(s, Fill(s, tid))
    ensures var t := Run(s, Fill(s, tid));
      && t.waiters == s.waiters && |t.slots| == |s.slots| && t.slots[tid].born >= |s.left|
    decreases if FreeSlot(s.slots, 0) == -1 then 0 else |s.slots| - FreeSlot(s.slots, 0)
  {
    var f := FreeSlot(s.slots, 0);
    var t := CreateStep(s);
    if f == tid {
      assert [Create][1..] == [];
      assert Run(s, [Create]) == Run(t, []);
      assert Undisturbed(s, [Create]);
    } else {
      var later := Fill(t, tid);
      assert ([Create] + later)[1..] == later;
      Filled(t, tid);
    }
  }

  /** A wait call is harmless, that is, no continuation without meddling calls takes a slot from
      under its waiter, exactly when it does not meddle itself. */
  lemma WaitCallHarmlessIff(s: State, tid: int)
    requires Inv(s) && 0 <= tid < |s.slots|
    ensures (forall es :: Undisturbed(Step(s, WaitCall(tid)), es) ==>
               Kept(Run(Step(s, WaitCall(tid)), es)))
            <==> !Meddles(s, WaitCall(tid))
  {
    hide Inv, Run, Undisturbed, Fill;
    var after := Step(s, WaitCall(tid));
    if Meddles(s, WaitCall(tid)) {
      MeddlingTakesSlot(s, tid);
    } else {
      forall es | Undisturbed(after, es)
        ensures Kept(Run(after, es))
      {
        StepKeeps(s, WaitCall(tid));
        RunKeeps(after, es);
        KeptByInv(Run(after, es));
      }
    }
  }

  /** A reachable state in which a wait call meddles: the process that a waiter started has ended and
      the waiter has not looked yet. */
  lemma MeddlingReachable()
    ensures var es := [CreateSync, KillBegin(0), KillEnd(0, true)];
      Undisturbed(Init(), es) && Meddles(Run(Init(), es), WaitCall(0))
  {
    var s0 := Init();
    assert FreeSlot(s0.slots, 0) == 0;
    var s1 := Step(s0, CreateSync);
    var s2 := Step(s1, KillBegin(0));
    assert s2.killers == [0];
    var s3 := Step(s2, KillEnd(0, true));
    var es := [CreateSync, KillBegin(0), KillEnd(0, true)];
    assert es[1..] == [KillBegin(0), KillEnd(0, true)] && es[1..][1..] == [KillEnd(0, true)];
    assert es[1..][1..][1..] == [];
    assert Run(s2, [KillEnd(0, true)]) == Run(s3, []) == s3;
    assert Undisturbed(s2, [KillEnd(0, true)]);
    assert s3.waiters[0] == Waiter(0, 1, Spinning) && !s3.slots[0].used;
  }

  lemma MeddlingTakesSlot(s: State, tid: int)
    requires Inv(s) && 0 <= tid < |s.slots| && Meddles(s, WaitCall(tid))
    ensures var after := Step(s, WaitCall(tid));
      Undisturbed(after, Fill(after, tid)) && !Kept(Run(after, Fill(after, tid)))
  {
    hide Run, Undisturbed, Fill, NoSharing;
    var after := Step(s, WaitCall(tid));
    Filled(after, tid);
    var w :| 0 <= w < |s.waiters| && Holding(s.waiters[w]) && s.waiters[w].tid == tid;
    assert Holds(s, s.waiters[w]) && ReadRight(s, s.waiters[w]);
  }
}
