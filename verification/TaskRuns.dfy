/** Runs from boot that break isolation: killing a slot whose creation had failed, two kills of one
    task that overlap, and a free by a block's physical address.  They show that the conditions on
    whole runs are needed. */
module TaskRuns {
  import opened Machine
  import opened MemorySpec
  import opened Paging
  import opened TaskMemorySpec

  const STACK: u32 := STACK_LENGTH
  const IMAGE: u32 := 0x30_0000          // the image of an empty program
  const BIG_LENGTH: nat := 0x20_0000
  const BIG_IMAGE: u32 := 0x50_0000
  const TABLES: u32 := PAGEDT_LENGTH
  const PROGRAM: nat := STACK + IMAGE + TABLES

  const S: u32 := ALLOC_START

  // ------------------------------------------------------------------ the allocator

  lemma FreeAt(s: Mem, i: nat, p: u32)
    requires i < |s.used| && s.used[i].start == p && |s.free| < MBD_COUNT
    requires forall k :: 0 <= k < i ==> s.used[k].start != p
    ensures Free(s, p) == (Mem(GiveBack(s.free, s.used[i]), RemoveAt(s.used, i)), true)
  {
    assert FirstAt(s.used, 0, p) == i;
  }

  lemma GiveBackAt(free: seq<Block>, b: Block, j: nat)
    requires j < |free| && (JustBefore(b, free[j]) || JustBefore(free[j], b))
    requires forall k :: 0 <= k < j ==> !JustBefore(b, free[k]) && !JustBefore(free[k], b)
    ensures GiveBack(free, b) == free[j := Joined(free[j], b)]
  {
    assert FirstNeighbour(free, 0, b) == j;
  }

  lemma GiveBackLast(free: seq<Block>, b: Block)
    requires forall k :: 0 <= k < |free| ==> !JustBefore(b, free[k]) && !JustBefore(free[k], b)
    ensures GiveBack(free, b) == free + [b]
  {
    assert FirstNeighbour(free, 0, b) == -1;
  }

  /** The blocks of an empty program whose stack starts at `at`. */
  function Blocks(at: u32): (bs: seq<Block>)
    requires at + PROGRAM < WORD
    ensures |bs| == 3
  {
    [Block(at, STACK), Block(at + STACK, IMAGE), Block(at + STACK + IMAGE, TABLES)]
  }

  /** What a creation allocates for an empty program. */
  function ProgramMem(s: Mem): Mem {
    Alloc(Alloc(Alloc(s, STACK).0, IMAGE).0, TABLES).0
  }

  /** The three allocations succeed and give these addresses. */
  ghost predicate Gives(s: Mem, at: u32) {
    && at + PROGRAM < WORD
    && Alloc(s, STACK).1 == Some(at)
    && Alloc(Alloc(s, STACK).0, IMAGE).1 == Some(at + STACK)
    && Alloc(Alloc(Alloc(s, STACK).0, IMAGE).0, TABLES).1 == Some(at + STACK + IMAGE)
  }

  /** All three from the front of the only free block. */
  lemma FromOne(s: Mem, at: u32, n: u32)
    requires s.free == [Block(at, n)] && PROGRAM < n && S <= at && at + n < WORD && |s.used| < 10
    ensures Gives(s, at)
    ensures ProgramMem(s) == Mem([Block(at + PROGRAM, n - PROGRAM)], s.used + Blocks(at))
  {
    hide Alloc;
    assert s.free == [] + [Block(at, n)];
    AllocFromLast(s, [], Block(at, n), STACK);
    var s1 := Alloc(s, STACK).0;
    assert s1.free == [] + [Block(at + STACK, n - STACK)];
    AllocFromLast(s1, [], Block(at + STACK, n - STACK), IMAGE);
    var s2 := Alloc(s1, IMAGE).0;
    assert s2.free == [] + [Block(at + STACK + IMAGE, n - STACK - IMAGE)];
    AllocFromLast(s2, [], Block(at + STACK + IMAGE, n - STACK - IMAGE), TABLES);
    assert s.used + [Block(at, STACK)] + [Block(at + STACK, IMAGE)] + [Block(at + STACK + IMAGE, TABLES)]
        == s.used + Blocks(at);
  }

  /** Memory while one empty program runs, and after it was killed. */
  function Running(end: nat): Mem
    requires S + PROGRAM < end < WORD
  {
    Mem([Block(S + PROGRAM, end - S - PROGRAM)], Blocks(S))
  }

  function Ended(end: nat): Mem
    requires S + PROGRAM < end < WORD
  {
    Mem([Block(S + STACK + IMAGE, end - S - STACK - IMAGE), Block(S, STACK + IMAGE)], [])
  }

  /** The same blocks again, from what killing the program left. */
  lemma FromEnded(end: nat)
    requires S + PROGRAM < end < WORD
    ensures Gives(Ended(end), S) && ProgramMem(Ended(end)) == Running(end)
  {
    hide Alloc;
    var s := Ended(end);
    var f, a := s.free[0], s.free[1];
    assert s.free == [f] + [a];
    AllocFromLast(s, [f], a, STACK);
    var s1 := Alloc(s, STACK).0;
    assert s1.free == [f] + [Block(S + STACK, IMAGE)];
    AllocFromLast(s1, [f], Block(S + STACK, IMAGE), IMAGE);
    var s2 := Alloc(s1, IMAGE).0;
    assert s2.free == [] + [f];
    AllocFromLast(s2, [], f, TABLES);
    assert s2.used + [Block(f.start, TABLES)] == Blocks(S);
  }

  /** Killing it: the image finds no neighbour, the page tables join the rest, the stack the image. */
  lemma KillProgram(end: nat)
    requires S + PROGRAM < end < WORD
    ensures FreeEach(Running(end), [S + STACK] + NoBlocks() + [S + STACK + IMAGE, S]) == Ended(end)
  {
    hide Free, FreeEach, GiveBack, NoBlocks;
    var s := Running(end);
    var f, a, b, c := s.free[0], s.used[0], s.used[1], s.used[2];
    FreeAt(s, 1, S + STACK);
    GiveBackLast(s.free, b);
    var s1 := Mem([f, b], [a, c]);
    assert Free(s, S + STACK).0 == s1 by {
      assert RemoveAt(s.used, 1) == [a, c];
    }
    FreeAt(s1, 1, S + STACK + IMAGE);
    GiveBackAt(s1.free, c, 0);
    var f' := Block(c.start, end - S - STACK - IMAGE);
    var s2 := Mem([f', b], [a]);
    assert Free(s1, S + STACK + IMAGE).0 == s2 by {
      assert RemoveAt(s1.used, 1) == [a] && Joined(f, c) == f' && s1.free[0 := f'] == [f', b];
    }
    FreeAt(s2, 0, S);
    GiveBackAt(s2.free, a, 1);
    assert Free(s2, S).0 == Ended(end) by {
      assert RemoveAt(s2.used, 0) == [] && Joined(b, a) == Block(S, STACK + IMAGE);
      assert s2.free[1 := Joined(b, a)] == [f', Block(S, STACK + IMAGE)];
    }
    FreeThree(s, S + STACK, S + STACK + IMAGE, S);
  }

  lemma {:induction false} FreeZeros(s: Mem, zeros: seq<u32>, ps: seq<u32>)
    requires forall i :: 0 <= i < |zeros| ==> zeros[i] == 0
    ensures FreeEach(s, zeros + ps) == FreeEach(s, ps)
    decreases |zeros|
  {
    if zeros == [] {
      assert zeros + ps == ps;
    } else {
      assert (zeros + ps)[0] == 0 && (zeros + ps)[1..] == zeros[1..] + ps;
      FreeZeros(s, zeros[1..], ps);
    }
  }

  lemma FreeThree(s: Mem, a: u32, b: u32, c: u32)
    requires a != 0 && c != 0
    ensures FreeEach(s, [a] + NoBlocks() + [b, c]) ==
            Free(if b == 0 then Free(s, a).0 else Free(Free(s, a).0, b).0, c).0
  {
    hide Free;
    var ps := [a] + NoBlocks() + [b, c];
    assert ps[0] == a && ps[1..] == NoBlocks() + [b, c];
    var s1 := Free(s, a).0;
    FreeZeros(s1, NoBlocks(), [b, c]);
    assert [b, c][1..] == [c] && [c][1..] == [];
    var s2 := if b == 0 then s1 else Free(s1, b).0;
    assert FreeEach(s1, [b, c]) == FreeEach(s2, [c]) == FreeEach(Free(s2, c).0, []);
  }

  // ------------------------------------------------------------------ creations and kills

  /** The slot of an empty program whose stack starts at `at`. */
  function Loaded(task: Task, at: u32): Task
    requires at + PROGRAM < WORD
  {
    task.(used := true, appLen := 0, stack := at, addr := at + STACK, blocks := NoBlocks(),
          pagedt := at + STACK + IMAGE, table := TaskTable(0, at + STACK, at + STACK + IMAGE))
  }

  lemma CreateEmpty(k: Kernel, tid: int, at: u32)
    requires FreeSlot(k.tasks, 0) == tid != -1 && Gives(k.mem, at)
    ensures Create(k, 0) ==
      (Kernel(ProgramMem(k.mem), k.tasks[tid := Loaded(k.tasks[tid], at)], k.live + {tid}, k.killers), tid)
  {
    hide Alloc, TaskTable, NoBlocks;
    assert ImageLength(0) == IMAGE;
    var mem0 := Alloc(k.mem, STACK).0;
    var k' := Stacked(k, tid, mem0, at);
    assert Create(k, 0) == Launch(k', tid, 0);
    var task := k'.tasks[tid].(used := true, appLen := 0);
    assert Loaded(k.tasks[tid], at) ==
      task.(addr := at + STACK, blocks := NoBlocks(), pagedt := at + STACK + IMAGE,
            table := TaskTable(0, at + STACK, at + STACK + IMAGE));
    assert k'.tasks[tid := Loaded(k.tasks[tid], at)] == k.tasks[tid := Loaded(k.tasks[tid], at)];
  }

  /** Page `page` after the first of the image of an empty program: writable, in the image. */
  lemma ImagePage(k: Kernel, tid: int, at: u32, page: nat)
    requires tid in k.live && 0 <= tid < |k.tasks| && 0 < page < IMAGE / PAGE_SIZE
    requires at % PAGE_SIZE == 0 && at + PROGRAM < WORD
    requires k.tasks[tid].table == TaskTable(0, at + STACK, at + STACK + IMAGE)
    ensures WritablePage(k, tid, IMAGE_PAGE + page)
    ensures FrameAddress(k, tid, IMAGE_PAGE + page) == at + STACK + page * PAGE_SIZE
  {
    assert ImageLength(0) == IMAGE && PagesOf(IMAGE) == IMAGE / PAGE_SIZE && Align4KB(IMAGE) == IMAGE;
    TaskTablePage(0, at + STACK, at + STACK + IMAGE, IMAGE_PAGE + page);
    hide TaskTable;
  }

  // ------------------------------------------------------------------ overlapping kills

  /** Two threads check one task and both end their kill.  Between the two ends another task got
      the same memory in another slot; the second end frees it, and a third task gets it as well:
      a page of both their images is one frame. */
  lemma OverlappingKills(k: Kernel, end: nat)
    returns (k1: Kernel, k2: Kernel, k3: Kernel, kr: Kernel, k4: Kernel, k5: Kernel, k6: Kernel)
    requires Booted(k, end) && S + PROGRAM < end < WORD
    ensures Create(k, 0) == (k1, 0) && k2 == KillBegin(KillBegin(k1, 0), 0) && k3 == KillEnd(k2, 0, false)
    ensures |k3.tasks| == MAX_TASK_COUNT && kr == k3.(tasks := k3.tasks[0 := k3.tasks[0].(allocable := false)])
    ensures Create(kr, 0) == (k4, 1) && KernelInv(k4, end) && Stray(k4, 0) && k5 == KillEnd(k4, 1, false)
    ensures Create(k5, 0) == (k6, 2) && WritablePage(k6, 1, IMAGE_PAGE + 1) && WritablePage(k6, 2, IMAGE_PAGE + 1)
    ensures FrameAddress(k6, 1, IMAGE_PAGE + 1) == FrameAddress(k6, 2, IMAGE_PAGE + 1)
  {
    hide Alloc, Free, FreeEach, TaskTable, KernelInv, Create, NoBlocks, ProgramMem, Gives, Blocks, KillEnd;
    k1, k2, k3, kr, k4 := FirstTask(k, end);
    SecondEnd(k4, end);
    k5 := KillEnd(k4, 1, false);
    FromEnded(end);
    assert FreeSlot(k5.tasks, 0) == FreeSlot(k5.tasks, 1) == FreeSlot(k5.tasks, 2) == 2;
    CreateEmpty(k5, 2, S);
    k6 := Create(k5, 0).0;
    ImagePage(k6, 1, S, 1);
    ImagePage(k6, 2, S, 1);
  }

  /** The run up to the creation of the second task. */
  lemma FirstTask(k: Kernel, end: nat) returns (k1: Kernel, k2: Kernel, k3: Kernel, kr: Kernel, k4: Kernel)
    requires Booted(k, end) && S + PROGRAM < end < WORD
    ensures Create(k, 0) == (k1, 0) && k2 == KillBegin(KillBegin(k1, 0), 0) && k3 == KillEnd(k2, 0, false)
    ensures |k3.tasks| == MAX_TASK_COUNT && kr == k3.(tasks := k3.tasks[0 := k3.tasks[0].(allocable := false)])
    ensures Create(kr, 0) == (k4, 1)
    ensures KernelInv(k4, end) && k4.mem == Running(end) && k4.killers == [-1, 0] && k4.live == {1}
    ensures |k4.tasks| == MAX_TASK_COUNT && !k4.tasks[0].used && !k4.tasks[0].allocable
    ensures k4.tasks[0] == Loaded(k.tasks[0], S).(used := false, allocable := false)
    ensures k4.tasks[1] == Loaded(k.tasks[1], S)
    ensures !k4.tasks[2].used && k4.tasks[2].allocable
  {
    hide Alloc, Free, FreeEach, TaskTable, KernelInv, Create, NoBlocks, ProgramMem, Gives, Blocks;
    FromOne(k.mem, S, end - S);
    assert [] + Blocks(S) == Blocks(S);
    assert FreeSlot(k.tasks, 0) == 0;
    CreateEmpty(k, 0, S);
    BootedInv(k, end);
    CreateKeeps(k, end, 0);
    k1 := Create(k, 0).0;
    k2 := KillBegin(KillBegin(k1, 0), 0);
    KillersKeep(k1, end, k2.killers);
    LiveNotStray(k2, end, 0);
    KillEndKeeps(k2, end, 0, false);
    k3 := KillEnd(k2, 0, false);
    KillProgram(end);
    kr := k3.(tasks := k3.tasks[0 := k3.tasks[0].(allocable := false)]);
    SetAllocableKeeps(k3, end, 0, false);
    FromEnded(end);
    assert FreeSlot(kr.tasks, 0) == FreeSlot(kr.tasks, 1) == 1;
    CreateEmpty(kr, 1, S);
    CreateKeeps(kr, end, 0);
    k4 := Create(kr, 0).0;
  }

  /** The second kill of slot 0 ends while slot 1 has the memory that slot 0 had. */
  lemma SecondEnd(k: Kernel, end: nat)
    requires S + PROGRAM < end < WORD && k.mem == Running(end) && k.killers == [-1, 0] && k.live == {1}
    requires |k.tasks| == MAX_TASK_COUNT
    requires exists t :: k.tasks[0] == Loaded(t, S).(used := false, allocable := false)
    requires exists t :: k.tasks[1] == Loaded(t, S)
    ensures Stray(k, 0)
    ensures KillEnd(k, 1, false) ==
      Kernel(Ended(end), k.tasks[0 := k.tasks[0].(used := false, blocks := NoBlocks())], {1}, [-1, -1])
  {
    hide Free, FreeEach, TaskTable, NoBlocks, Blocks;
    KillProgram(end);
    assert Owns(k, Image(1)) && BlockOwned(k, Image(1)).start == KillList(k, 0)[0];
    assert k.live - {0} == {1};
  }

  // ------------------------------------------------------------------ a task's memory calls

  const TOP: u32 := 0x0130_0000          // just after the image of an empty program
  const TOP_PAGE: nat := 0x1300

  /** The table of an empty program: absent from TOP on, with every entry naming its own page. */
  lemma EmptyProgramPage(addr: u32, pagedt: u32, p: nat)
    requires addr % PAGE_SIZE == 0 && addr + IMAGE <= WORD && p < PAGE_COUNT
    ensures Present(PageEntry(TaskTable(0, addr, pagedt), p)) <==> p < TOP_PAGE
    ensures p >= TOP_PAGE ==> Frame(PageEntry(TaskTable(0, addr, pagedt), p)) == p
  {
    hide Mapped, EmptyTable, MapsTo;
    assert ImageLength(0) == IMAGE && PagesOf(IMAGE) == 0x300 && Align4KB(IMAGE) == IMAGE;
    assert PagesOf(KERNEL_LENGTH) == IMAGE_PAGE && PagesOf(PAGE_SIZE) == 1;
    var base := TableBase(pagedt);
    var t0 := EmptyTable(base);
    var t1 := Mapped(t0, 0, KERNEL_LENGTH, 0, RW_RE);
    var t2 := Mapped(t1, IMAGE_START, IMAGE, addr, RW_RWE);
    EmptyPage(base, p);
    MappedPage(t0, 0, KERNEL_LENGTH, 0, RW_RE, p);
    MappedPage(t1, IMAGE_START, IMAGE, addr, RW_RWE, p);
    MappedPage(t2, IMAGE_START, PAGE_SIZE, addr, RW_RE, p);
  }

  /** So memory is handed out from TOP on. */
  lemma FirstAtTop(addr: u32, pagedt: u32, size: u32)
    requires addr % PAGE_SIZE == 0 && addr + IMAGE <= WORD && 0 < PagesOf(size) <= 0x1000
    ensures FindPages(TaskTable(0, addr, pagedt), size) == Some(TOP)
  {
    hide TaskTable;
    var t, r := TaskTable(0, addr, pagedt), PagesOf(size);
    forall p | 0 <= p < PAGE_COUNT
      ensures Present(PageEntry(t, p)) <==> p < TOP_PAGE
    {
      EmptyProgramPage(addr, pagedt, p);
    }
    assert size > 0;
    var found := FindRun(t, 0, r);
    assert FreeRun(t, TOP_PAGE, r);
    forall q: nat | q < TOP_PAGE
      ensures !FreeRun(t, q, r)
    {
      assert q + r <= PAGE_COUNT ==> Present(PageEntry(t, q));
    }
    assert found == Some(TOP_PAGE);
  }

  /** An empty program's first request, served with block `p`. */
  lemma FirstRequest(k: Kernel, tid: int, at: u32, size: u32, p: u32)
    requires at % PAGE_SIZE == 0 && at + PROGRAM < WORD && 0 < PagesOf(size) <= 0x1000
    requires UsedTask(k, tid) && k.tasks[tid].table == TaskTable(0, at + STACK, at + STACK + IMAGE)
    requires k.tasks[tid].blocks == NoBlocks() && |k.tasks[tid].spans| == MAX_TASK_MEMORY_BLOCK_COUNT
    requires Alloc(k.mem, size).1 == Some(p)
    ensures AllocMemory(k, tid, size) ==
      (k.(mem := Alloc(k.mem, size).0, tasks := k.tasks[tid := Grown(k.tasks[tid], 0, TOP, size, p)]), TOP)
  {
    hide TaskTable, Alloc, FindPages, Mapped;
    FirstAtTop(at + STACK, at + STACK + IMAGE, size);
    assert FreeBlockSlot(NoBlocks(), 0) == 0;
  }

  // ------------------------------------------------------------------ killing the failed

  /** The one free block while a big image is refused, from its stack on. */
  function Rest(end: nat): Mem
    requires S + STACK < end < WORD
  {
    Mem([Block(S + STACK, end - S - STACK)], [Block(S, STACK)])
  }

  lemma CreateBig(k: Kernel, end: nat)
    requires Booted(k, end) && S + STACK + PROGRAM < end < S + STACK + BIG_IMAGE + TABLES
    ensures Create(k, BIG_LENGTH) ==
      (k.(mem := Rest(end),
          tasks := k.tasks[0 := k.tasks[0].(used := true, appLen := BIG_LENGTH, stack := S, addr := S + STACK,
                                            blocks := NoBlocks(), pagedt := 0)]), -1)
  {
    hide Alloc, Free, NoBlocks;
    var n := end - S;
    assert ImageLength(BIG_LENGTH) == BIG_IMAGE && FreeSlot(k.tasks, 0) == 0;
    assert k.mem.free == [] + [Block(S, n)];
    AllocFromLast(k.mem, [], Block(S, n), STACK);
    var s1 := Alloc(k.mem, STACK).0;
    assert s1 == Rest(end) && s1.free == [] + [Block(S + STACK, n - STACK)];
    AllocFromLast(s1, [], Block(S + STACK, n - STACK), BIG_IMAGE);
    var s2 := Alloc(s1, BIG_IMAGE).0;
    RefuseTables(s2, end);
    var k' := Stacked(k, 0, s1, S);
    assert Create(k, BIG_LENGTH) == Launch(k', 0, BIG_LENGTH);
    var task := k'.tasks[0].(used := true, appLen := BIG_LENGTH, addr := S + STACK, blocks := NoBlocks(), pagedt := 0);
    assert k'.tasks[0 := task] == k.tasks[0 := task];
  }

  lemma RefuseTables(s: Mem, end: nat)
    requires S + STACK + PROGRAM < end < S + STACK + BIG_IMAGE + TABLES
    requires s.free == [Block(S + STACK + BIG_IMAGE, end - S - STACK - BIG_IMAGE)]
    requires s.used == [Block(S, STACK), Block(S + STACK, BIG_IMAGE)]
    ensures Alloc(s, TABLES).1 == None && Free(s, S + STACK).0 == Rest(end)
  {
    assert Align4KB(TABLES) == TABLES && !Fits(s.free[0], ALLOC_START, TABLES);
    FreeAt(s, 1, S + STACK);
    GiveBackAt(s.free, s.used[1], 0);
    assert RemoveAt(s.used, 1) == [Block(S, STACK)];
    assert s.free[0 := Joined(s.free[0], s.used[1])] == Rest(end).free;
  }

  /** Memory after the kill of the failed slot: the live task's stack went with the slot's own. */
  function Holed(end: nat): Mem
    requires S + STACK + PROGRAM < end < WORD
  {
    Mem([Block(S + STACK + PROGRAM, end - S - STACK - PROGRAM), Block(S, 2 * STACK)],
        [Block(S + 2 * STACK, IMAGE), Block(S + 2 * STACK + IMAGE, TABLES)])
  }

  /** Memory before that kill, and after its first free. */
  function Both(end: nat): Mem
    requires S + STACK + PROGRAM < end < WORD
  {
    Mem([Block(S + STACK + PROGRAM, end - S - STACK - PROGRAM)], [Block(S, STACK)] + Blocks(S + STACK))
  }

  function Half(end: nat): Mem
    requires S + STACK + PROGRAM < end < WORD
  {
    Mem([Block(S + STACK + PROGRAM, end - S - STACK - PROGRAM), Block(S + STACK, STACK)],
        [Block(S, STACK), Block(S + 2 * STACK, IMAGE), Block(S + 2 * STACK + IMAGE, TABLES)])
  }

  lemma FreeOther(end: nat)
    requires S + STACK + PROGRAM < end < WORD
    ensures Free(Both(end), S + STACK).0 == Half(end)
  {
    hide Free, GiveBack;
    var s := Both(end);
    FreeAt(s, 1, S + STACK);
    GiveBackLast(s.free, s.used[1]);
    assert RemoveAt(s.used, 1) == Half(end).used;
  }

  lemma FreeOwn(end: nat)
    requires S + STACK + PROGRAM < end < WORD
    ensures Free(Half(end), S).0 == Holed(end)
  {
    hide Free, GiveBack;
    var s := Half(end);
    FreeAt(s, 0, S);
    GiveBackAt(s.free, s.used[0], 1);
    assert RemoveAt(s.used, 0) == Holed(end).used;
    assert s.free[1 := Joined(s.free[1], s.used[0])] == Holed(end).free;
  }

  lemma KillFailed(end: nat)
    requires S + STACK + PROGRAM < end < WORD
    ensures FreeEach(Both(end), [S + STACK] + NoBlocks() + [0, S]) == Holed(end)
  {
    hide Free, FreeEach, NoBlocks, Both, Half, Holed;
    FreeOther(end);
    FreeOwn(end);
    FreeThree(Both(end), S + STACK, 0, S);
  }

  /** A creation that finds no room for its page tables leaves its slot used; the next creation gets
      the address of its image for its system-call stack; killing the failed slot then frees that
      stack, and a request of the live task maps it writable. */
  lemma FailedCreationKilled(k: Kernel, end: nat)
    returns (k1: Kernel, k2: Kernel, k3: Kernel, k4: Kernel, k5: Kernel)
    requires Booted(k, end) && S + STACK + PROGRAM < end < S + STACK + BIG_IMAGE + TABLES
    ensures Create(k, BIG_LENGTH) == (k1, -1) && Create(k1, 0) == (k2, 1) && k3 == KillBegin(k2, 0)
    ensures KernelInv(k3, end) && k3.killers == [0] && Stray(k3, 0) && k4 == KillEnd(k3, 0, false)
    ensures 1 < |k4.tasks| && IsTable(k4.tasks[1].table) && |k4.tasks[1].spans| == |k4.tasks[1].blocks|
    ensures AllocMemory(k4, 1, 2 * STACK) == (k5, TOP) && 1 in k5.live && 1 < |k5.tasks|
    ensures WritablePage(k5, 1, TOP_PAGE + STACK / PAGE_SIZE)
    ensures FrameAddress(k5, 1, TOP_PAGE + STACK / PAGE_SIZE) == k5.tasks[1].stack
  {
    hide Alloc, Free, FreeEach, TaskTable, KernelInv, Create, NoBlocks, ProgramMem, Gives, Mapped, AllocMemory, Blocks,
      Holed;
    CreateBig(k, end);
    k1 := Create(k, BIG_LENGTH).0;
    BootedInv(k, end);
    CreateKeeps(k, end, BIG_LENGTH);
    FromOne(k1.mem, S + STACK, end - S - STACK);
    assert FreeSlot(k1.tasks, 0) == FreeSlot(k1.tasks, 1) == 1;
    CreateEmpty(k1, 1, S + STACK);
    CreateKeeps(k1, end, 0);
    k2 := Create(k1, 0).0;
    k3 := KillBegin(k2, 0);
    KillersKeep(k2, end, k3.killers);
    assert Owns(k3, Stack(1)) && BlockOwned(k3, Stack(1)).start == KillList(k3, 0)[0];
    KillFailed(end);
    k4 := KillEnd(k3, 0, false);
    assert k4.mem == Holed(end);
    TakeHole(k4, end, k.tasks[1]);
    k5 := AllocMemory(k4, 1, 2 * STACK).0;
  }

  lemma TakeHole(k: Kernel, end: nat, t: Task)
    requires S + STACK + PROGRAM < end < WORD && k.mem == Holed(end) && 1 in k.live && 1 < |k.tasks|
    requires k.tasks[1] == Loaded(t, S + STACK) && |t.spans| == MAX_TASK_MEMORY_BLOCK_COUNT
    ensures var k' := AllocMemory(k, 1, 2 * STACK).0;
      var p := TOP_PAGE + STACK / PAGE_SIZE;
      && AllocMemory(k, 1, 2 * STACK).1 == TOP && 1 in k'.live && |k'.tasks| == |k.tasks| && WritablePage(k', 1, p) && FrameAddress(k', 1, p) == k'.tasks[1].stack
  {
    hide Alloc, TaskTable, NoBlocks, Mapped, AllocMemory;
    var f, b := k.mem.free[0], k.mem.free[1];
    assert k.mem.free == [f] + [b];
    AllocFromLast(k.mem, [f], b, 2 * STACK);
    assert PagesOf(2 * STACK) == 0x200;
    FirstRequest(k, 1, S + STACK, 2 * STACK, S);
    MappedPage(k.tasks[1].table, TOP, 2 * STACK, S, RW_RWE, TOP_PAGE + STACK / PAGE_SIZE);
  }

  // ------------------------------------------------------------------ a free by physical address

  /** Memory while an empty program holds one page besides. */
  function OnePageMore(end: nat): Mem
    requires S + PROGRAM + PAGE_SIZE < end < WORD
  {
    Mem([Block(S + PROGRAM + PAGE_SIZE, end - S - PROGRAM - PAGE_SIZE)],
        Blocks(S) + [Block(S + PROGRAM, PAGE_SIZE)])
  }

  lemma FreeOnePage(end: nat)
    requires S + PROGRAM + PAGE_SIZE < end < WORD
    ensures Free(OnePageMore(end), S + PROGRAM) == (Running(end), true)
    ensures BlockSize(OnePageMore(end), S + PROGRAM) == PAGE_SIZE
  {
    var s := OnePageMore(end);
    FreeAt(s, 3, S + PROGRAM);
    GiveBackAt(s.free, s.used[3], 0);
    assert RemoveAt(s.used, 3) == Blocks(S);
    assert s.free[0 := Joined(s.free[0], s.used[3])] == Running(end).free;
    assert FirstAt(s.used, 0, S + PROGRAM) == 3;
  }

  /** A task gets a page and frees it by its physical address, whose entry, though absent, names it:
      the page stays mapped where it was handed out.  The next task's system-call stack starts there. */
  lemma FreedByPhysicalAddress(k: Kernel, end: nat) returns (k1: Kernel, k2: Kernel, k3: Kernel, k4: Kernel)
    requires Booted(k, end) && S + 2 * PROGRAM < end < WORD
    ensures Create(k, 0) == (k1, 0) && KernelInv(k1, end) && UsedTask(k1, 0) && UsedTask(k2, 0)
    ensures AllocMemory(k1, 0, PAGE_SIZE) == (k2, TOP) && KernelInv(k2, end)
    ensures UserFreeHarms(k2, 0, S + PROGRAM) && UserFree(k2, 0, S + PROGRAM) == (k3, true)
    ensures Create(k3, 0) == (k4, 1) && 1 in k4.live && 1 < |k4.tasks|
    ensures WritablePage(k4, 0, TOP_PAGE) && FrameAddress(k4, 0, TOP_PAGE) == k4.tasks[1].stack
  {
    hide Alloc, Free, TaskTable, Inv, Aligned, NoEmptyBlock, TaskOk, Ownership, Create, NoBlocks, ProgramMem, Gives,
      Mapped, AllocMemory, UserFree, UserFreeHarms, Blocks, Running, OnePageMore;
    k1, k2 := HoldsOnePage(k, end);
    OnePageBack(k2, end, k.tasks[0]);
    k3 := UserFree(k2, 0, S + PROGRAM).0;
    RunningMem(end);
    FromOne(k3.mem, S + PROGRAM, end - S - PROGRAM);
    assert FreeSlot(k3.tasks, 0) == FreeSlot(k3.tasks, 1) == 1;
    CreateEmpty(k3, 1, S + PROGRAM);
    k4 := Create(k3, 0).0;
  }

  lemma RunningMem(end: nat)
    requires S + PROGRAM < end < WORD
    ensures Running(end) == Mem([Block(S + PROGRAM, end - S - PROGRAM)], Blocks(S))
  {
  }

  lemma HoldsOnePage(k: Kernel, end: nat) returns (k1: Kernel, k2: Kernel)
    requires Booted(k, end) && S + 2 * PROGRAM < end < WORD
    ensures Create(k, 0) == (k1, 0) && KernelInv(k1, end) && k1.tasks == k.tasks[0 := Loaded(k.tasks[0], S)]
    ensures AllocMemory(k1, 0, PAGE_SIZE) == (k2, TOP) && KernelInv(k2, end)
    ensures k2.mem == OnePageMore(end) && k2.live == {0}
    ensures k2.tasks == k.tasks[0 := Grown(Loaded(k.tasks[0], S), 0, TOP, PAGE_SIZE, S + PROGRAM)]
  {
    hide Alloc, Free, TaskTable, KernelInv, Create, NoBlocks, ProgramMem, Gives, Mapped, AllocMemory, Blocks, Running,
      OnePageMore;
    FromOne(k.mem, S, end - S);
    RunningMem(end);
    assert [] + Blocks(S) == Blocks(S);
    assert FreeSlot(k.tasks, 0) == 0;
    CreateEmpty(k, 0, S);
    BootedInv(k, end);
    CreateKeeps(k, end, 0);
    k1 := Create(k, 0).0;
    OnePage(k1, end, k.tasks[0]);
    AllocMemoryKeeps(k1, end, 0, PAGE_SIZE);
    k2 := AllocMemory(k1, 0, PAGE_SIZE).0;
  }

  lemma OnePage(k: Kernel, end: nat, t: Task)
    requires S + 2 * PROGRAM < end < WORD && k.mem == Running(end) && UsedTask(k, 0)
    requires k.tasks[0] == Loaded(t, S) && |t.spans| == MAX_TASK_MEMORY_BLOCK_COUNT
    ensures AllocMemory(k, 0, PAGE_SIZE) ==
      (k.(mem := OnePageMore(end),
          tasks := k.tasks[0 := Grown(k.tasks[0], 0, TOP, PAGE_SIZE, S + PROGRAM)]), TOP)
  {
    hide Alloc, TaskTable, NoBlocks, Mapped, AllocMemory;
    AllocOnePage(k.mem, k.mem.free[0]);
    assert PagesOf(PAGE_SIZE) == 1;
    FirstRequest(k, 0, S, PAGE_SIZE, S + PROGRAM);
  }

  lemma OnePageBack(k: Kernel, end: nat, t: Task)
    requires S + 2 * PROGRAM < end < WORD && k.mem == OnePageMore(end) && UsedTask(k, 0)
    requires |t.spans| == MAX_TASK_MEMORY_BLOCK_COUNT
    requires k.tasks[0] == Grown(Loaded(t, S), 0, TOP, PAGE_SIZE, S + PROGRAM)
    ensures UserFreeHarms(k, 0, S + PROGRAM) && UserFree(k, 0, S + PROGRAM).1
    ensures var k' := UserFree(k, 0, S + PROGRAM).0;
      && k' == k.(mem := Running(end), tasks := k.tasks[0 := k'.tasks[0]]) && k'.tasks[0].used
      && IsTable(k'.tasks[0].table)
      && Present(PageEntry(k'.tasks[0].table, TOP_PAGE)) && Writable(PageEntry(k'.tasks[0].table, TOP_PAGE))
      && Frame(PageEntry(k'.tasks[0].table, TOP_PAGE)) * PAGE_SIZE == S + PROGRAM
  {
    hide Free, TaskTable, NoBlocks, Mapped, Freed, BlockSize;
    var task, a, q := k.tasks[0], S + PROGRAM, (S + PROGRAM) / PAGE_SIZE;
    FreeOnePage(end);
    assert PagesOf(PAGE_SIZE) == 1;
    var table := Loaded(t, S).table;
    EmptyProgramPage(S + STACK, S + STACK + IMAGE, q);
    MappedPage(table, TOP, PAGE_SIZE, a, RW_RWE, q);
    MappedPage(table, TOP, PAGE_SIZE, a, RW_RWE, TOP_PAGE);
    assert Translate(task.table, a) == a;
    assert task.blocks[0] == a && PlaceOf(task.blocks, a, 0) == 0;
    FreedPage(task.table, a, PAGE_SIZE, TOP_PAGE);
    forall i | 0 <= i < |task.blocks| && task.blocks[i] != 0
      ensures a != task.spans[i].first * PAGE_SIZE
    {
      assert i == 0 && task.spans[0] == Span(TOP_PAGE, 1);
    }
  }
}
