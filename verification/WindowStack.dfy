/** The stack of windows: an array of all window slots whose first `count` entries are the live
    windows from top to bottom, shifted, rotated and swapped in place. */
module WindowStack {
  import opened Sequences

  const MAX_WINDOW_COUNT: nat := 256
  const WINDOW_STATE_NONE: int := 0
  const WINDOW_STATE_HIDDEN: int := 2
  const WINDOW_STATE_CLOSED: int := 3

  /** A window is the number of its slot; no window is -1. */
  type Handle = int

  /** `order` is the array of slots, `live` the slots with an id, `states` the window states. */
  datatype Stack = Stack(order: seq<Handle>, count: nat, live: seq<bool>, states: seq<int>)

  datatype Event =
    | New
    | Destroy(w: Handle)
    | SetTop(w: Handle)
    | Switch
    | HideTop
    | Raise(index: int)
    | SetState(w: Handle, state: int)

  // ------------------------------------------------------------------ the invariant

  predicate Slot(w: Handle) {
    0 <= w < MAX_WINDOW_COUNT
  }

  /** The array is a permutation of the slots, and exactly its first `count` entries are live. */
  ghost predicate Inv(s: Stack) {
    && |s.order| == |s.live| == |s.states| == MAX_WINDOW_COUNT && s.count <= MAX_WINDOW_COUNT
    && (forall i :: 0 <= i < MAX_WINDOW_COUNT ==> Slot(s.order[i]))
    && Distinct(s.order)
    && (forall i :: 0 <= i < MAX_WINDOW_COUNT ==> (s.live[s.order[i]] <==> i < s.count))
  }

  /** The array order after a move: the same entries, the live ones still in front. */
  ghost predicate Reordered(before: seq<Handle>, after: seq<Handle>, count: nat) {
    && |after| == |before| && count <= |before|
    && Distinct(after)
    && (forall i :: 0 <= i < |after| ==> FromPart(before, after[i], i < count, count))
  }

  /** `w` is an entry of the front part, or of the back part, of the array. */
  ghost predicate FromPart(before: seq<Handle>, w: Handle, front: bool, count: nat) {
    exists j :: 0 <= j < |before| && w == before[j] && (front <==> j < count)
  }

  // -------------------------------------------------------------------- operations

  /** The place of `w` in the array, from `i` on; the length if it is not there. */
  function Find(order: seq<Handle>, w: Handle, i: nat): (pos: nat)
    requires i <= |order|
    ensures i <= pos <= |order|
    ensures pos < |order| ==> order[pos] == w
    ensures forall k :: i <= k < pos ==> order[k] != w
    decreases |order| - i
  {
    if i == |order| || order[i] == w then i else Find(order, w, i + 1)
  }

  function ToFront(order: seq<Handle>, pos: nat): seq<Handle>
    requires pos < |order|
  {
    [order[pos]] + order[..pos] + order[pos + 1..]
  }

  function ToBack(order: seq<Handle>, pos: nat): seq<Handle>
    requires pos < |order|
  {
    order[..pos] + order[pos + 1..] + [order[pos]]
  }

  /** The first `count` entries turned by `k`. */
  function Turn(order: seq<Handle>, count: nat, k: nat): seq<Handle>
    requires k <= count <= |order|
  {
    order[k..count] + order[..k] + order[count..]
  }

  function Exchange(order: seq<Handle>, i: nat): seq<Handle>
    requires i < |order|
  {
    order[i := order[0]][0 := order[i]]
  }

  predicate Shown(states: seq<int>, w: Handle) {
    0 <= w < |states| && states[w] != WINDOW_STATE_HIDDEN && states[w] != WINDOW_STATE_CLOSED
  }

  /** The first turn, from `k` on, that brings up a shown window, `last` if there is none before. */
  function FirstStop(order: seq<Handle>, states: seq<int>, k: nat, last: nat): (stop: nat)
    requires k <= last <= |order|
    ensures k <= stop <= last
    ensures stop < last ==> Shown(states, order[stop])
    ensures forall i :: k <= i < stop ==> !Shown(states, order[i])
    decreases last - k
  {
    if k == last || Shown(states, order[k]) then k else FirstStop(order, states, k + 1, last)
  }

  function Step(s: Stack, e: Event): Stack
    requires Inv(s)
  {
    match e
    case New =>
      if s.count == MAX_WINDOW_COUNT then s
      else s.(count := s.count + 1, live := s.live[s.order[s.count] := true])
    case Destroy(w) =>
      if !Slot(w) || !s.live[w] || Find(s.order, w, 0) >= s.count then s
      else s.(order := ToBack(s.order, Find(s.order, w, 0)), count := s.count - 1,
              live := s.live[w := false])
    case SetTop(w) =>
      if Find(s.order, w, 0) >= s.count then s
      else s.(order := ToFront(s.order, Find(s.order, w, 0)))
    case Switch =>
      if s.count < 2 then s
      else s.(order := Turn(s.order, s.count, FirstStop(s.order, s.states, 1, s.count)))
    case HideTop =>
      if s.count == 0 then s
      else s.(states := s.states[s.order[0] := WINDOW_STATE_HIDDEN],
              order := Turn(s.order, s.count, 1))
    case Raise(i) =>
      if !(0 <= i < s.count) then s else s.(order := Exchange(s.order, i))
    case SetState(w, state) =>
      if !Slot(w) then s else s.(states := s.states[w := state])
  }

  function Init(): (s: Stack) {
    Stack(seq(MAX_WINDOW_COUNT, i => i), 0, seq(MAX_WINDOW_COUNT, i => false),
          seq(MAX_WINDOW_COUNT, i => WINDOW_STATE_NONE))
  }

  // --------------------------------------------------------------- every run keeps it

  lemma ReorderedKeeps(s: Stack, order: seq<Handle>)
    requires Inv(s) && Reordered(s.order, order, s.count)
    ensures Inv(s.(order := order))
  {
    hide Distinct;
    var t := s.(order := order);
    forall i | 0 <= i < MAX_WINDOW_COUNT
      ensures Slot(order[i]) && (s.live[order[i]] <==> i < s.count)
    {
      assert FromPart(s.order, order[i], i < s.count, s.count);
      var j :| 0 <= j < |s.order| && order[i] == s.order[j] && (i < s.count <==> j < s.count);
      assert Slot(s.order[j]);
    }
  }

  lemma ToFrontReorders(order: seq<Handle>, pos: nat, count: nat)
    requires Distinct(order) && pos < count <= |order|
    ensures Reordered(order, ToFront(order, pos), count)
  {
    var after := ToFront(order, pos);
    forall i | 0 <= i < |after|
      ensures FromPart(order, after[i], i < count, count)
    {
      var j := if i == 0 then pos else if i <= pos then i - 1 else i;
      assert after[i] == order[j];
    }
  }

  lemma TurnReorders(order: seq<Handle>, count: nat, k: nat)
    requires Distinct(order) && k <= count <= |order|
    ensures Reordered(order, Turn(order, count, k), count)
  {
    var after := Turn(order, count, k);
    forall i | 0 <= i < |after|
      ensures FromPart(order, after[i], i < count, count)
    {
      var j := if i < count - k then i + k else if i < count then i - (count - k) else i;
      assert 0 <= j < |order| && after[i] == order[j] && (i < count <==> j < count);
    }
  }

  lemma ExchangeReorders(order: seq<Handle>, i: nat, count: nat)
    requires Distinct(order) && i < count <= |order|
    ensures Reordered(order, Exchange(order, i), count)
  {
    var after := Exchange(order, i);
    forall k | 0 <= k < |after|
      ensures FromPart(order, after[k], k < count, count)
    {
      var j := if k == 0 then i else if k == i then 0 else k;
      assert 0 <= j < |order| && after[k] == order[j] && (k < count <==> j < count);
    }
  }

  lemma NewKeeps(s: Stack)
    requires Inv(s)
    ensures Inv(Step(s, New))
  {
  }

  lemma DestroyKeeps(s: Stack, w: Handle)
    requires Inv(s)
    ensures Inv(Step(s, Destroy(w)))
  {
    if Slot(w) && s.live[w] && Find(s.order, w, 0) < s.count {
      hide Find, ToBack;
      var pos := Find(s.order, w, 0);
      var after := ToBack(s.order, pos);
      BackAt(s.order, pos);
      assert s.order[pos] == w;
      assert Distinct(after) by {
        BackDistinct(s.order, pos);
      }
    }
  }

  lemma BackAt(order: seq<Handle>, pos: nat)
    requires pos < |order|
    ensures var after := ToBack(order, pos);
      |after| == |order| && forall i :: 0 <= i < |after| ==>
        after[i] == if i < pos then order[i] else if i < |after| - 1 then order[i + 1] else order[pos]
  {
  }

  lemma BackOne(order: seq<Handle>, pos: nat, i: nat)
    requires pos < |order| && i < |order|
    ensures |ToBack(order, pos)| == |order|
    ensures i < pos ==> ToBack(order, pos)[i] == order[i]
    ensures pos <= i < |order| - 1 ==> ToBack(order, pos)[i] == order[i + 1]
    ensures pos <= i == |order| - 1 ==> ToBack(order, pos)[i] == order[pos]
  {
  }

  lemma BackDistinct(order: seq<Handle>, pos: nat)
    requires pos < |order| && Distinct(order)
    ensures Distinct(ToBack(order, pos))
  {
    hide ToBack;
    BackAt(order, pos);
    forall i, j | 0 <= i < j < |order|
      ensures ToBack(order, pos)[i] != ToBack(order, pos)[j]
    {
      BackOne(order, pos, i);
      BackOne(order, pos, j);
      var a := if i < pos then i else i + 1;
      var b := if j < pos then j else if j < |order| - 1 then j + 1 else pos;
      assert a != b;
      assert order[a] != order[b];
    }
  }

  lemma StepKeeps(s: Stack, e: Event)
    requires Inv(s)
    ensures Inv(Step(s, e))
  {
    hide Reordered, ToFront, ToBack, Turn, Exchange, Distinct;
    match e {
      case New => NewKeeps(s);
      case Destroy(w) => DestroyKeeps(s, w);
      case SetTop(w) =>
        var pos := Find(s.order, w, 0);
        if pos < s.count {
          ToFrontReorders(s.order, pos, s.count);
          ReorderedKeeps(s, ToFront(s.order, pos));
        }
      case Switch =>
        if s.count >= 2 {
          var k := FirstStop(s.order, s.states, 1, s.count);
          TurnReorders(s.order, s.count, k);
          ReorderedKeeps(s, Turn(s.order, s.count, k));
        }
      case HideTop =>
        if s.count > 0 {
          TurnReorders(s.order, s.count, 1);
          ReorderedKeeps(s, Turn(s.order, s.count, 1));
        }
      case Raise(i) =>
        if 0 <= i < s.count {
          ExchangeReorders(s.order, i, s.count);
          ReorderedKeeps(s, Exchange(s.order, i));
        }
      case SetState(w, state) =>
    }
  }

  ghost function Run(s: Stack, es: seq<Event>): Stack
    requires Inv(s)
    decreases |es|
  {
    if es == [] then s
    else
      StepKeeps(s, es[0]);
      Run(Step(s, es[0]), es[1..])
  }

  lemma {:induction false} RunKeeps(s: Stack, es: seq<Event>)
    requires Inv(s)
    ensures Inv(Run(s, es))
    decreases |es|
  {
    hide Inv, Step;
    if es != [] {
      StepKeeps(s, es[0]);
      RunKeeps(Step(s, es[0]), es[1..]);
    }
  }

  lemma InitInv()
    ensures Inv(Init())
  {
  }

  /** Over every run, the array is a permutation of the slots with exactly the live windows in
      front: every slot is in it, and a slot is live exactly when its place is below the count. */
  lemma EveryRunPermutes(es: seq<Event>, w: Handle)
    requires Slot(w)
    ensures Inv(Init())
    ensures var s := Run(Init(), es);
      && Inv(s) && Find(s.order, w, 0) < MAX_WINDOW_COUNT
      && (s.live[w] <==> Find(s.order, w, 0) < s.count)
  {
    hide Run, Distinct, Init;
    InitInv();
    RunKeeps(Init(), es);
    EverySlotPlaced(Run(Init(), es).order, w);
  }

  function Upto(n: nat): (all: set<int>)
    ensures |all| == n && forall k :: k in all <==> 0 <= k < n
  {
    if n == 0 then {} else Upto(n - 1) + {n - 1}
  }

  lemma {:induction false} SetOfDistinct(order: seq<Handle>, n: nat)
    requires Distinct(order) && n <= |order|
    ensures |set k | 0 <= k < n :: order[k]| == n
    decreases n
  {
    if n > 0 {
      var less := set k | 0 <= k < n - 1 :: order[k];
      SetOfDistinct(order, n - 1);
      assert (set k | 0 <= k < n :: order[k]) == less + {order[n - 1]};
    }
  }

  /** Distinct entries that fill all places are all the slots. */
  lemma EverySlotPlaced(order: seq<Handle>, w: Handle)
    requires |order| == MAX_WINDOW_COUNT && Distinct(order) && Slot(w)
    requires forall i :: 0 <= i < MAX_WINDOW_COUNT ==> Slot(order[i])
    ensures Find(order, w, 0) < MAX_WINDOW_COUNT
  {
    if Find(order, w, 0) >= MAX_WINDOW_COUNT {
      var entries := set k | 0 <= k < MAX_WINDOW_COUNT :: order[k];
      SetOfDistinct(order, MAX_WINDOW_COUNT);
      assert entries <= Upto(MAX_WINDOW_COUNT) - {w};
      Smaller(entries, Upto(MAX_WINDOW_COUNT) - {w});
    }
  }

  lemma {:induction false} Smaller<T>(a: set<T>, b: set<T>)
    requires a <= b
    ensures |a| <= |b|
    decreases a
  {
    if a != {} {
      var x :| x in a;
      Smaller(a - {x}, b - {x});
    }
  }

  // ------------------------------------------------------------------ what moves mean

  predicate Above(order: seq<Handle>, a: Handle, b: Handle) {
    Find(order, a, 0) < Find(order, b, 0) < |order|
  }

  lemma FindIs(order: seq<Handle>, pos: nat)
    requires Distinct(order) && pos < |order|
    ensures Find(order, order[pos], 0) == pos
  {
  }

  /** Putting a window on top keeps the order of all others. */
  lemma SetTopKeepsOrder(s: Stack, w: Handle, a: Handle, b: Handle)
    requires Inv(s) && a != w && b != w && Slot(a) && Slot(b)
    ensures var after := Step(s, SetTop(w));
      && (Above(s.order, a, b) <==> Above(after.order, a, b))
      && (Slot(w) && s.live[w] ==> after.order[0] == w)
  {
    hide Find, Distinct, ToFront;
    EverySlotPlaced(s.order, a);
    EverySlotPlaced(s.order, b);
    var pos := Find(s.order, w, 0);
    if pos < s.count {
      FindAfterToFront(s.order, pos, s.count, a);
      FindAfterToFront(s.order, pos, s.count, b);
    }
    if Slot(w) {
      EverySlotPlaced(s.order, w);
    }
    if pos < s.count {
      FrontIs(s.order, pos);
    }
  }

  lemma FrontIs(order: seq<Handle>, pos: nat)
    requires pos < |order|
    ensures |ToFront(order, pos)| == |order| && ToFront(order, pos)[0] == order[pos]
  {
  }

  lemma FindAfterToFront(order: seq<Handle>, pos: nat, count: nat, a: Handle)
    requires Distinct(order) && pos < count <= |order| && a != order[pos]
    requires Find(order, a, 0) < |order|
    ensures var p := Find(order, a, 0);
      Find(ToFront(order, pos), a, 0) == if p < pos then p + 1 else p
  {
    hide Find;
    ToFrontReorders(order, pos, count);
    var p := Find(order, a, 0);
    var after := ToFront(order, pos);
    var q := if p < pos then p + 1 else p;
    assert after[q] == a;
    FindIs(after, q);
  }

  lemma FindAfterToBack(order: seq<Handle>, pos: nat, a: Handle)
    requires Distinct(order) && pos < |order| && a != order[pos] && Find(order, a, 0) < |order|
    ensures var p := Find(order, a, 0);
      Find(ToBack(order, pos), a, 0) == if p < pos then p else p - 1
  {
    hide Find, ToBack, Distinct;
    BackDistinct(order, pos);
    var p := Find(order, a, 0);
    BackOne(order, pos, if p < pos then p else p - 1);
    FindIs(ToBack(order, pos), if p < pos then p else p - 1);
  }

  /** Freeing a live window ends it alone, keeps the order of all others, whether live or not, and
      puts its slot last. */
  lemma FreeKeepsOrder(s: Stack, w: Handle, a: Handle, b: Handle)
    requires Inv(s) && Slot(w) && s.live[w] && a != w && b != w && Slot(a) && Slot(b)
    ensures var after := Step(s, Destroy(w));
      && |after.live| == |s.live| && |after.order| == |s.order|
      && !after.live[w] && after.live[a] == s.live[a] && after.states == s.states
      && after.count == s.count - 1 && after.order[|s.order| - 1] == w
      && (Above(s.order, a, b) <==> Above(after.order, a, b))
  {
    hide Find, Distinct, ToBack;
    EverySlotPlaced(s.order, w);
    EverySlotPlaced(s.order, a);
    EverySlotPlaced(s.order, b);
    var pos := Find(s.order, w, 0);
    assert pos < s.count;
    FindAfterToBack(s.order, pos, a);
    FindAfterToBack(s.order, pos, b);
    BackOne(s.order, pos, |s.order| - 1);
  }

  /** A new window was not live before and is live afterwards, below all live ones; nothing else
      changes.  There is none exactly when all slots are live. */
  lemma NewMeans(s: Stack, a: Handle)
    requires Inv(s) && Slot(a)
    ensures var after := Step(s, New);
      && after.order == s.order && after.states == s.states && |after.live| == |s.live|
      && (after == s <==> forall w :: Slot(w) ==> s.live[w])
      && (after != s ==>
            var w := s.order[s.count];
            && after.count == s.count + 1 && Slot(w) && !s.live[w] && after.live[w]
            && (a != w ==> after.live[a] == s.live[a])
            && (s.live[a] ==> Above(after.order, a, w)))
  {
    hide Find, Distinct;
    EverySlotPlaced(s.order, a);
    if s.count < MAX_WINDOW_COUNT {
      FindIs(s.order, s.count);
    } else {
      forall w | Slot(w)
        ensures s.live[w]
      {
        EverySlotPlaced(s.order, w);
      }
    }
  }

  /** Hiding the top window hides it alone, puts it below all other live windows, whose order it
      keeps, and ends none. */
  lemma HideTopMeans(s: Stack, a: Handle, b: Handle)
    requires Inv(s) && s.count > 0 && Slot(a) && Slot(b) && a != s.order[0] && b != s.order[0]
    ensures var after := Step(s, HideTop);
      var top := s.order[0];
      && |after.states| == |s.states| && |after.order| == |s.order| && Slot(top)
      && !Shown(after.states, top) && (Shown(after.states, a) <==> Shown(s.states, a))
      && after.live == s.live && after.count == s.count && after.order[s.count - 1] == top
      && (s.live[a] ==> Above(after.order, a, top))
      && (Above(s.order, a, b) <==> Above(after.order, a, b))
  {
    hide Find, Distinct, Turn;
    EverySlotPlaced(s.order, a);
    EverySlotPlaced(s.order, b);
    TurnOnce(s.order, s.count, a);
    TurnOnce(s.order, s.count, b);
  }

  lemma TurnOnce(order: seq<Handle>, count: nat, a: Handle)
    requires Distinct(order) && 0 < count <= |order| && Find(order, a, 0) < |order| && a != order[0]
    ensures var after := Turn(order, count, 1);
      var p := Find(order, a, 0);
      && |after| == |order| && after[count - 1] == order[0] && Find(after, order[0], 0) == count - 1
      && Find(after, a, 0) == if p < count then p - 1 else p
  {
    hide Find;
    TurnReorders(order, count, 1);
    var after := Turn(order, count, 1);
    var p := Find(order, a, 0);
    assert after[count - 1] == order[0] && p != 0;
    assert after[if p < count then p - 1 else p] == a;
    FindIs(after, count - 1);
    FindIs(after, if p < count then p - 1 else p);
  }

  /** Raising puts a live window on top, the old top in its place, and moves nothing else. */
  lemma RaiseMeans(s: Stack, i: nat, k: nat)
    requires Inv(s) && i < s.count && k < MAX_WINDOW_COUNT
    ensures var after := Step(s, Raise(i));
      && |after.order| == |s.order| && after.live == s.live && after.states == s.states
      && after.order[0] == s.order[i] && after.order[i] == s.order[0]
      && (k != 0 && k != i ==> after.order[k] == s.order[k])
  {
  }

  /** Switching turns the live windows by the least positive number that brings a shown window to
      the top, or all the way round to the old top; the rest of the array does not move. */
  lemma SwitchMeans(s: Stack)
    requires Inv(s) && s.count >= 2
    ensures var after := Step(s, Switch);
      exists k :: 1 <= k <= s.count && Turned(s.order, after.order, s.count, k)
        && (k < s.count ==> Shown(s.states, s.order[k]))
        && (forall i :: 1 <= i < k ==> !Shown(s.states, s.order[i]))
  {
    hide Turned, Shown, Turn, Distinct;
    var k := FirstStop(s.order, s.states, 1, s.count);
    TurnTurns(s.order, s.count, k);
    assert Turned(s.order, Step(s, Switch).order, s.count, k);
  }

  /** Entry `i` of the first `count` is the one that was `k` further on, going round. */
  ghost predicate Turned(before: seq<Handle>, after: seq<Handle>, count: nat, k: nat) {
    && 0 < count <= |before| == |after|
    && (forall i :: 0 <= i < count ==> after[i] == before[(i + k) % count])
    && (forall i :: count <= i < |before| ==> after[i] == before[i])
  }

  lemma TurnTurns(order: seq<Handle>, count: nat, k: nat)
    requires 0 < count <= |order| && k <= count
    ensures Turned(order, Turn(order, count, k), count, k)
  {
    var after := Turn(order, count, k);
    forall i | 0 <= i < count
      ensures after[i] == order[(i + k) % count]
    {
      Around(i + k, count);
    }
  }

  lemma Around(n: nat, count: nat)
    requires 0 < count && n < 2 * count
    ensures n % count == if n < count then n else n - count
  {
    if n >= count {
      assert n == count + (n - count);
    }
  }

  // ----------------------------------------------------------------- the array, in place

  class Windows {
    const windows: array<Handle>
    const live: array<bool>
    const states: array<int>
    var count: nat

    ghost predicate Valid()
      reads this, windows, live, states
    {
      windows != states && Inv(View())
    }

    ghost function View(): (s: Stack)
      reads this, windows, live, states
    {
      Stack(windows[..], count, live[..], states[..])
    }

    constructor ()
      ensures Valid() && View() == Init()
      ensures fresh(windows) && fresh(live) && fresh(states)
    {
      windows := new Handle[MAX_WINDOW_COUNT](i => i);
      live := new bool[MAX_WINDOW_COUNT](i => false);
      states := new int[MAX_WINDOW_COUNT](i => WINDOW_STATE_NONE);
      count := 0;
      new;
      InitInv();
      assert windows[..] == Init().order && live[..] == Init().live && states[..] == Init().states;
    }

    /** `_ScrNewWindow`: the first array entry without an id; -1 for NULL. */
    method NewWindow() returns (window: Handle)
      requires Valid()
      modifies this`count, live
      ensures Valid() && View() == Step(old(View()), New)
      ensures window == if old(count) < MAX_WINDOW_COUNT then windows[old(count)] else -1
    {
      hide Distinct;
      StepKeeps(View(), New);
      var ui := 0;
      while ui < MAX_WINDOW_COUNT && live[windows[ui]]
        invariant 0 <= ui <= MAX_WINDOW_COUNT
        invariant forall i :: 0 <= i < ui ==> live[windows[i]]
      {
        ui := ui + 1;
      }
      assert ui == count;
      if ui == MAX_WINDOW_COUNT {
        return -1;
      }
      window := windows[ui];
      live[window] := true;
      count := count + 1;
    }

    /** `_ScrFreeWindow`, called for a window with an id. */
    method FreeWindow(window: Handle) returns (ok: bool)
      requires Valid() && (Slot(window) ==> live[window])
      modifies this`count, windows, live
      ensures Valid() && View() == Step(old(View()), Destroy(window))
      ensures ok <==> Slot(window)
    {
      hide Distinct, ToBack;
      StepKeeps(View(), Destroy(window));
      if Slot(window) {
        EverySlotPlaced(windows[..], window);
      }
      if window < 0 {
        return false;
      }
      var ui := Locate(window, MAX_WINDOW_COUNT);
      if ui == MAX_WINDOW_COUNT {
        return false;
      }
      assert windows[ui] == window && ui < count;
      assert windows[..MAX_WINDOW_COUNT] == windows[..] && windows[MAX_WINDOW_COUNT..] == [];
      MoveToBack(ui, MAX_WINDOW_COUNT);
      assert windows[..] == ToBack(old(windows[..]), ui);
      live[window] := false;
      count := count - 1;
      ok := true;
    }

    /** The first place of `window` among the first `limit`, or `limit`. */
    method Locate(window: Handle, limit: nat) returns (pos: nat)
      requires limit <= windows.Length
      ensures pos == if Find(windows[..], window, 0) < limit then Find(windows[..], window, 0)
                     else limit
    {
      pos := 0;
      while pos < limit && windows[pos] != window
        invariant 0 <= pos <= limit
        invariant forall i :: 0 <= i < pos ==> windows[i] != window
      {
        pos := pos + 1;
      }
    }

    /** The loop that closes the gap at `pos` and puts its window last among the first `limit`. */
    method MoveToBack(pos: nat, limit: nat)
      requires pos < limit <= windows.Length
      modifies windows
      ensures windows[..] == ToBack(old(windows[..limit]), pos) + old(windows[limit..])
    {
      var window := windows[pos];
      var i := pos;
      while i < limit - 1
        invariant pos <= i <= limit - 1
        invariant forall k :: 0 <= k < pos ==> windows[k] == old(windows[k])
        invariant forall k :: pos <= k < i ==> windows[k] == old(windows[k + 1])
        invariant forall k :: i <= k < windows.Length ==> windows[k] == old(windows[k])
      {
        windows[i] := windows[i + 1];
        i := i + 1;
      }
      windows[limit - 1] := window;
      ghost var first := old(windows[..limit]);
      hide ToBack;
      forall k | 0 <= k < limit
        ensures windows[k] == ToBack(first, pos)[k]
      {
        BackOne(first, pos, k);
      }
      BackOne(first, pos, pos);
      assert windows[..limit] == ToBack(first, pos);
      assert windows[limit..] == old(windows[limit..]);
    }

    /** `ScrSetTopWindow`. */
    method SetTopWindow(window: Handle) returns (ok: bool)
      requires Valid()
      modifies windows
      ensures Valid() && View() == Step(old(View()), SetTop(window))
      ensures ok <==> Slot(window) && live[window]
    {
      hide Distinct, ToFront;
      StepKeeps(View(), SetTop(window));
      if Slot(window) {
        EverySlotPlaced(windows[..], window);
      }
      if window < 0 || count == 0 {
        return false;
      }
      if windows[0] == window {
        FrontStays(windows[..]);
        return true;
      }
      var pos := Locate(window, count);
      if pos == count {
        return false;
      }
      MoveToFront(pos);
      ok := true;
    }

    /** The loop that opens a gap at the top and puts the window of place `pos` there. */
    method MoveToFront(pos: nat)
      requires pos < windows.Length
      modifies windows
      ensures windows[..] == ToFront(old(windows[..]), pos)
    {
      var window := windows[pos];
      var i := pos - 1;
      while i >= 0
        invariant -1 <= i < pos
        invariant forall k :: 0 <= k <= i ==> windows[k] == old(windows[k])
        invariant forall k :: i + 1 < k <= pos ==> windows[k] == old(windows[k - 1])
        invariant forall k :: pos < k < windows.Length ==> windows[k] == old(windows[k])
      {
        windows[i + 1] := windows[i];
        i := i - 1;
      }
      windows[0] := window;
    }

    /** `_ScrSwitchWindow` for a live window `top`: turn once, then again while the top is hidden
        or closed and is not `top`. */
    method SwitchFrom(top: Handle)
      requires Valid() && (count >= 2 ==> Find(windows[..], top, 0) < count)
      modifies windows
      ensures Valid()
      ensures windows[..] ==
        if count < 2 then old(windows[..])
        else Turn(old(windows[..]), count,
                  FirstStop(old(windows[..]), states[..], 1, Until(old(windows[..]), count, top)))
      decreases Until(windows[..], count, top)
    {
      hide Distinct, FirstStop, Turn, ToBack, Until;
      if count < 2 {
        return;
      }
      ghost var before := windows[..];
      ghost var all := states[..];
      TurnReorders(before, count, 1);
      ReorderedKeeps(View(), Turn(before, count, 1));
      BackIsTurn(before, count);
      assert before[..count] == windows[..count] && before[count..] == windows[count..];
      MoveToBack(0, count);
      assert View() == old(View()).(order := Turn(before, count, 1));
      SwitchStep(before, all, count, top);
      if windows[0] == top {
        return;
      }
      if states[windows[0]] == WINDOW_STATE_HIDDEN || states[windows[0]] == WINDOW_STATE_CLOSED {
        SwitchFrom(top);
      }
    }

    /** `ScrSwitchWindow`. */
    method SwitchWindow()
      requires Valid()
      modifies windows
      ensures Valid() && View() == Step(old(View()), Switch)
    {
      hide Distinct, Turn;
      if count >= 2 {
        FindIs(windows[..], 0);
      }
      SwitchFrom(windows[0]);
    }

    /** The hide button, inside `ScrFlushScreen`: hide the top window and put it last. */
    method HideTopWindow()
      requires Valid() && count > 0
      modifies windows, states
      ensures Valid() && View() == Step(old(View()), HideTop)
    {
      hide Distinct, Turn, ToBack;
      StepKeeps(View(), HideTop);
      var top := windows[0];
      states[top] := WINDOW_STATE_HIDDEN;
      ghost var before := windows[..];
      BackIsTurn(before, count);
      assert before[..count] == windows[..count] && before[count..] == windows[count..];
      MoveToBack(0, count);
    }

    /** A click into a window, inside `ScrFlushScreen`: it changes places with the top. */
    method RaiseWindow(ui: nat)
      requires Valid() && ui < count
      modifies windows
      ensures Valid() && View() == Step(old(View()), Raise(ui))
    {
      hide Distinct;
      StepKeeps(View(), Raise(ui));
      var window := windows[ui];
      windows[ui] := windows[0];
      windows[0] := window;
    }
  }

  lemma FrontStays(order: seq<Handle>)
    requires |order| > 0
    ensures ToFront(order, 0) == order
  {
  }

  lemma BackIsTurn(order: seq<Handle>, count: nat)
    requires 0 < count <= |order|
    ensures ToBack(order[..count], 0) + order[count..] == Turn(order, count, 1)
  {
  }

  /** How many turns bring `top` to the top; all the way round if it is there already. */
  ghost function Until(order: seq<Handle>, count: nat, top: Handle): (n: nat)
    requires count <= |order|
    ensures n <= |order|
    ensures Find(order, top, 0) < count ==> 1 <= n <= count
  {
    if Find(order, top, 0) == 0 then count else Find(order, top, 0)
  }

  /** One turn: either it is the last, or the rest of the turns from there add up. */
  lemma SwitchStep(order: seq<Handle>, states: seq<int>, count: nat, top: Handle)
    requires Distinct(order) && 2 <= count <= |order| && Find(order, top, 0) < count
    ensures var once := Turn(order, count, 1);
      var total := FirstStop(order, states, 1, Until(order, count, top));
      && |once| == |order| && Find(once, top, 0) < count
      && (once[0] == top || Shown(states, once[0]) ==> total == 1)
      && (once[0] != top && !Shown(states, once[0]) ==>
            && Until(once, count, top) < Until(order, count, top)
            && Turn(order, count, total) ==
               Turn(once, count, FirstStop(once, states, 1, Until(once, count, top))))
  {
    hide Distinct, Find;
    var once := Turn(order, count, 1);
    FindAfterTurn(order, count, top);
    if once[0] != top && !Shown(states, once[0]) {
      SwitchMore(order, states, count, top);
    } else {
      assert once[0] == order[1];
    }
  }

  lemma SwitchMore(order: seq<Handle>, states: seq<int>, count: nat, top: Handle)
    requires Distinct(order) && 2 <= count <= |order| && Find(order, top, 0) < count
    requires var once := Turn(order, count, 1); once[0] != top && !Shown(states, once[0])
    ensures var once := Turn(order, count, 1);
      var total := FirstStop(order, states, 1, Until(order, count, top));
      && Find(once, top, 0) < count && Until(once, count, top) < Until(order, count, top)
      && Turn(order, count, total) ==
         Turn(once, count, FirstStop(once, states, 1, Until(once, count, top)))
  {
    hide Distinct, Find;
    var once := Turn(order, count, 1);
    var last := Until(order, count, top);
    FindAfterTurn(order, count, top);
    FirstStopShifts(order, once, states, count, 1, last - 1);
    TurnTwice(order, count, FirstStop(once, states, 1, last - 1));
  }

  lemma FindAfterTurn(order: seq<Handle>, count: nat, top: Handle)
    requires Distinct(order) && 2 <= count <= |order| && Find(order, top, 0) < count
    ensures var once := Turn(order, count, 1);
      Find(once, top, 0) == Until(order, count, top) - 1
  {
    TurnReorders(order, count, 1);
    var once := Turn(order, count, 1);
    assert once[Until(order, count, top) - 1] == top;
    FindIs(once, Until(order, count, top) - 1);
  }

  lemma {:induction false} FirstStopShifts(order: seq<Handle>, once: seq<Handle>, states: seq<int>,
                                           count: nat, k: nat, last: nat)
    requires 1 <= k <= last < count <= |order| && once == Turn(order, count, 1)
    ensures FirstStop(order, states, k + 1, last + 1) == FirstStop(once, states, k, last) + 1
    decreases last - k
  {
    assert k < count - 1 ==> once[k] == order[k + 1];
    if k < last && !Shown(states, once[k]) {
      FirstStopShifts(order, once, states, count, k + 1, last);
    }
  }

  lemma TurnTwice(order: seq<Handle>, count: nat, k: nat)
    requires k < count <= |order|
    ensures Turn(Turn(order, count, 1), count, k) == Turn(order, count, k + 1)
  {
  }
}
