/** What the operations on the memory of tasks give and take: nothing is lost or kept that should
    not be, and what one call does another one undoes. */
module TaskLaws {
  import opened Machine
  import opened MemorySpec
  import opened Paging
  import opened TaskMemorySpec

  // ------------------------------------------------------------ creating and killing

  /** Everything but slot tid is as before. */
  ghost predicate OthersKept(k: Kernel, k': Kernel, tid: int) {
    && k'.killers == k.killers && |k'.tasks| == |k.tasks|
    && k'.live - {tid} == k.live - {tid}
    && forall t :: 0 <= t < |k.tasks| && t != tid ==> k'.tasks[t] == k.tasks[t]
  }

  /** The slot is the first that is neither used nor reserved. */
  ghost predicate FirstFree(k: Kernel, tid: int) {
    && 0 <= tid < |k.tasks| && !k.tasks[tid].used && k.tasks[tid].allocable
    && forall t :: 0 <= t < tid ==> k.tasks[t].used || !k.tasks[t].allocable
  }

  /** A creation that succeeds takes the first free slot and exactly three blocks: the system-call
      stack, the image with its 3 MB in front, and the page tables.  One that fails either changes
      nothing, or leaves the first free slot used and keeps no more than the stack. */
  lemma CreateTakes(k: Kernel, end: nat, appLen: nat)
    requires KernelInv(k, end) && |k.mem.free| < MBD_COUNT
    ensures var (k', tid) := Create(k, appLen);
      if tid != -1 then
        && FirstFree(k, tid) && OthersKept(k, k', tid) && tid in k'.live && UsedTask(k', tid)
        && (forall i :: 0 <= i < |k'.tasks[tid].blocks| ==> k'.tasks[tid].blocks[i] == 0)
        && k'.mem.used == k.mem.used + [Block(k'.tasks[tid].stack, 0x10_0000),
                                        Block(k'.tasks[tid].addr, Align4KB(0x30_0000 + appLen)),
                                        Block(k'.tasks[tid].pagedt, 0x40_3000)]
      else if k' == k then
        || appLen > 16 * 1024 * 1024
        || (forall t :: 0 <= t < |k.tasks| ==> k.tasks[t].used || !k.tasks[t].allocable)
        || |k.mem.used| == MBD_COUNT
        || forall i :: 0 <= i < |k.mem.free| ==> k.mem.free[i].length < 0x10_0000
      else
        exists t :: FirstFree(k, t) && OthersKept(k, k', t) && k'.live == k.live && UsedTask(k', t)
          && k'.mem.used == k.mem.used + [Block(k'.tasks[t].stack, 0x10_0000)]
  {
    hide KernelInv, Launch, Alloc, OthersKept, FirstFree;
    KernelMem(k, end);
    StackSize();
    AllocExact(k.mem, end, STACK_LENGTH);
    var tid := FreeSlot(k.tasks, 0);
    if appLen <= MAX_APP_LEN && tid != -1 && Alloc(k.mem, STACK_LENGTH).1.Some? {
      StackTakes(k, end, tid, appLen);
    }
  }

  lemma StackTakes(k: Kernel, end: nat, tid: int, appLen: nat)
    requires KernelInv(k, end) && |k.mem.free| < MBD_COUNT && appLen <= MAX_APP_LEN
    requires tid == FreeSlot(k.tasks, 0) && tid != -1 && Alloc(k.mem, STACK_LENGTH).1.Some?
    ensures var (k', r) := Create(k, appLen);
      && FirstFree(k, tid) && OthersKept(k, k', tid) && UsedTask(k', tid) && (r == -1 || r == tid)
      && k'.live == (if r == -1 then k.live else k.live + {tid}) && k' != k
      && var stack := k.mem.used + [Block(k'.tasks[tid].stack, STACK_LENGTH)];
         if r == -1 then k'.mem.used == stack
         else
           && (forall i :: 0 <= i < |k'.tasks[tid].blocks| ==> k'.tasks[tid].blocks[i] == 0)
           && k'.mem.used == stack + [Block(k'.tasks[tid].addr, Align4KB(ImageLength(appLen)))]
                                   + [Block(k'.tasks[tid].pagedt, PAGEDT_LENGTH)]
  {
    hide KernelInv, Launch, Alloc, Align4KB;
    KernelMem(k, end);
    StackSize();
    AllocGives(k.mem, end, STACK_LENGTH);
    AllocShrinks(k.mem, end, STACK_LENGTH);
    FreeNotLive(k, end);
    var (mem0, p) := Alloc(k.mem, STACK_LENGTH);
    var k0 := Stacked(k, tid, mem0, p.value);
    LaunchTakes(k0, end, tid, appLen);
    LaunchFrame(k0, tid, appLen);
    assert Launch(k0, tid, appLen) == Create(k, appLen);
  }

  lemma KernelMem(k: Kernel, end: nat)
    requires KernelInv(k, end)
    ensures GoodMem(k.mem, end) && |k.tasks| == MAX_TASK_COUNT
  {
    hide Inv, Aligned, NoEmptyBlock, TaskOk, Ownership;
  }

  lemma AllocShrinks(s: Mem, end: nat, length: u32)
    requires Inv(s, end)
    ensures |Alloc(s, length).0.free| <= |s.free|
  {
    hide Alloc, Partition;
    AllocExact(s, end, length);
  }

  lemma LaunchFrame(k: Kernel, tid: int, appLen: nat)
    requires 0 <= tid < |k.tasks| && appLen <= MAX_APP_LEN && tid !in k.live
    ensures var (k', r) := Launch(k, tid, appLen);
      && OthersKept(k, k', tid) && UsedTask(k', tid) && (r == -1 || r == tid)
      && k'.live == (if r == -1 then k.live else k.live + {tid})
      && k'.tasks[tid].stack == k.tasks[tid].stack
  {
    hide Alloc, Free, TaskTable, NoBlocks;
  }

  lemma LaunchTakes(k: Kernel, end: nat, tid: int, appLen: nat)
    requires GoodMem(k.mem, end) && |k.mem.free| < MBD_COUNT && 0 <= tid < |k.tasks| && appLen <= MAX_APP_LEN
    ensures var (k', r) := Launch(k, tid, appLen);
      if r == -1 then k'.mem.used == k.mem.used
      else
        && (forall i :: 0 <= i < |k'.tasks[tid].blocks| ==> k'.tasks[tid].blocks[i] == 0)
        && k'.mem.used == k.mem.used + [Block(k'.tasks[tid].addr, Align4KB(ImageLength(appLen)))]
                                     + [Block(k'.tasks[tid].pagedt, PAGEDT_LENGTH)]
  {
    hide Inv, Aligned, NoEmptyBlock, Alloc, Free, TaskTable, Align4KB;
    ImageSize(NoTask().(appLen := appLen));
    PageTableSize();
    AllocGives(k.mem, end, ImageLength(appLen));
    var (mem1, a) := Alloc(k.mem, ImageLength(appLen));
    AllocGives(mem1, end, PAGEDT_LENGTH);
    if a.Some? && Alloc(mem1, PAGEDT_LENGTH).1.None? {
      AllocShrinks(k.mem, end, ImageLength(appLen));
      FreeUndoesAlloc(k.mem, end, ImageLength(appLen));
    }
  }

  /** The block belongs to task tid. */
  ghost predicate BlockOf(k: Kernel, tid: int, b: Block) {
    exists o :: Owns(k, o) && o.tid == tid && b == BlockOwned(k, o)
  }

  /** Ending a kill gives back exactly the blocks of the task: its image, its page tables, its
      system-call stack and every block it had asked for. */
  lemma KillGivesBack(k: Kernel, end: nat, tid: int, b: Block)
    requires KernelInv(k, end) && tid in k.live && 0 <= tid < |k.tasks|
    requires |k.mem.free| + MAX_TASK_MEMORY_BLOCK_COUNT + 3 <= MBD_COUNT
    ensures b in Kill(k, tid).mem.used <==> b in k.mem.used && !BlockOf(k, tid, b)
    ensures OthersKept(k, Kill(k, tid), tid) && tid !in Kill(k, tid).live && !UsedTask(Kill(k, tid), tid)
  {
    hide Inv, Aligned, NoEmptyBlock, FreeEach, TaskOk, KillList;
    var ps := KillList(k, tid);
    if b in k.mem.used {
      if BlockOf(k, tid, b) {
        OwnedListed(k, end, tid, b);
        FreeEachRemoves(k.mem, end, ps, b);
      } else {
        NotOwnedNotListed(k, end, tid, b);
        FreeEachKeeps(k.mem, end, ps);
      }
    }
    FreeEachShrinks(k.mem, ps);
  }

  lemma OwnedListed(k: Kernel, end: nat, tid: int, b: Block)
    requires KernelInv(k, end) && tid in k.live && 0 <= tid < |k.tasks| && BlockOf(k, tid, b)
    ensures b in k.mem.used && b.start in KillList(k, tid) && b.start != 0
    ensures |KillList(k, tid)| == MAX_TASK_MEMORY_BLOCK_COUNT + 3
  {
    hide Inv, Aligned, NoEmptyBlock, PageOk, DirectoryOk;
    LiveTaskOk(k, end, tid);
    var task := k.tasks[tid];
    var o :| Owns(k, o) && o.tid == tid && b == BlockOwned(k, o);
    UsedBlockShape(k.mem, end, b);
    var ps, n := KillList(k, tid), |task.blocks|;
    assert ps[0] == task.addr && ps[n + 1] == task.pagedt && ps[n + 2] == task.stack;
    if o.Dynamic? {
      assert ps[o.slot + 1] == task.blocks[o.slot];
    }
  }

  lemma NotOwnedNotListed(k: Kernel, end: nat, tid: int, b: Block)
    requires KernelInv(k, end) && tid in k.live && 0 <= tid < |k.tasks| && b in k.mem.used
    requires !BlockOf(k, tid, b)
    ensures b.start !in KillList(k, tid)
  {
    hide Inv, Aligned, NoEmptyBlock, PageOk, DirectoryOk;
    LiveTaskOk(k, end, tid);
    UsedBlockShape(k.mem, end, b);
    var task := k.tasks[tid];
    StartIsNot(k, end, Image(tid), b);
    StartIsNot(k, end, PageTable(tid), b);
    StartIsNot(k, end, Stack(tid), b);
    forall i | 0 <= i < |task.blocks|
      ensures task.blocks[i] != b.start
    {
      if task.blocks[i] != 0 {
        StartIsNot(k, end, Dynamic(tid, i), b);
      }
    }
  }

  lemma StartIsNot(k: Kernel, end: nat, o: Owner, b: Block)
    requires KernelInv(k, end) && Owns(k, o) && b in k.mem.used && !BlockOf(k, o.tid, b)
    ensures BlockOwned(k, o).start != b.start
  {
    hide Inv, Aligned, NoEmptyBlock, TaskOk;
    var c := BlockOwned(k, o);
    assert c in k.mem.used;
    if c.start == b.start {
      SameStart(k.mem, end, b, c);
    }
  }

  lemma SameStart(s: Mem, end: nat, b: Block, c: Block)
    requires GoodMem(s, end) && b in s.used && c in s.used && b.start == c.start
    ensures b == c
  {
    var i :| 0 <= i < |s.used| && s.used[i] == b;
    var j :| 0 <= j < |s.used| && s.used[j] == c;
    UsedStartsUnique(s, end, i, j);
  }

  /** Killing a task undoes its creation: the same blocks are used as before. */
  lemma KillUndoesCreate(k: Kernel, end: nat, appLen: nat, b: Block)
    requires KernelInv(k, end) && Create(k, appLen).1 != -1
    requires |k.mem.free| + MAX_TASK_MEMORY_BLOCK_COUNT + 3 <= MBD_COUNT
    ensures var (k', tid) := Create(k, appLen);
      && 0 <= tid < |k'.tasks|
      && (b in Kill(k', tid).mem.used <==> b in k.mem.used)
      && OthersKept(k, Kill(k', tid), tid) && !UsedTask(Kill(k', tid), tid)
  {
    hide KernelInv, Kill, Create;
    var (k', tid) := Create(k, appLen);
    CreateTakes(k, end, appLen);
    CreateKeeps(k, end, appLen);
    CreateShrinks(k, end, appLen);
    KillGivesBack(k', end, tid, b);
    NewBlocks(k, k', end, tid, b);
  }

  lemma CreateShrinks(k: Kernel, end: nat, appLen: nat)
    requires KernelInv(k, end) && Create(k, appLen).1 != -1
    ensures |Create(k, appLen).0.mem.free| <= |k.mem.free|
    ensures Create(k, appLen).0.tasks[Create(k, appLen).1].appLen == appLen <= MAX_APP_LEN
  {
    hide Inv, Aligned, NoEmptyBlock, Alloc, TaskTable, TaskOk, Ownership, Align4KB;
    StackSize();
    PageTableSize();
    ImageSize(NoTask().(appLen := appLen));
    var mem0 := Alloc(k.mem, STACK_LENGTH).0;
    var mem1 := Alloc(mem0, ImageLength(appLen)).0;
    AllocGives(k.mem, end, STACK_LENGTH);
    AllocGives(mem0, end, ImageLength(appLen));
    AllocShrinks(k.mem, end, STACK_LENGTH);
    AllocShrinks(mem0, end, ImageLength(appLen));
    AllocShrinks(mem1, end, PAGEDT_LENGTH);
  }

  /** The blocks of a new task are those its creation added. */
  lemma NewBlocks(k: Kernel, k': Kernel, end: nat, tid: int, b: Block)
    requires KernelInv(k, end) && KernelInv(k', end) && tid in k'.live && 0 <= tid < |k'.tasks|
    requires forall i :: 0 <= i < |k'.tasks[tid].blocks| ==> k'.tasks[tid].blocks[i] == 0
    requires k'.tasks[tid].appLen <= MAX_APP_LEN
    requires k'.mem.used == k.mem.used + [Block(k'.tasks[tid].stack, 0x10_0000),
                                          Block(k'.tasks[tid].addr, Align4KB(0x30_0000 + k'.tasks[tid].appLen)),
                                          Block(k'.tasks[tid].pagedt, 0x40_3000)]
    ensures b in k.mem.used <==> b in k'.mem.used && !BlockOf(k', tid, b)
  {
    hide Inv, Aligned, NoEmptyBlock, TaskOk, Align4KB;
    var task, n := k'.tasks[tid], |k.mem.used|;
    var news := [BlockOwned(k', Stack(tid)), BlockOwned(k', Image(tid)), BlockOwned(k', PageTable(tid))];
    assert k'.mem.used == k.mem.used + news;
    if b in k.mem.used && BlockOf(k', tid, b) {
      var o :| Owns(k', o) && o.tid == tid && b == BlockOwned(k', o);
      var i :| 0 <= i < n && k.mem.used[i] == b;
      var j := if o.Stack? then 0 else if o.Image? then 1 else 2;
      assert k'.mem.used[i] == b && k'.mem.used[n + j] == b;
      UsedStartsUnique(k'.mem, end, i, n + j);
    }
    if b in k'.mem.used && b !in k.mem.used {
      var j :| 0 <= j < |k'.mem.used| && k'.mem.used[j] == b;
      assert j >= n && b == news[j - n];
      assert BlockOf(k', tid, b);
    }
  }

  // ---------------------------------------------------------------- memory calls

  /** Slot tid got block `p` of `size` bytes, mapped from `r` on: every page was absent and is now
      present, writable and open to the task's code, every address translates to its place in the
      block, and no other page changed. */
  ghost predicate Handed(k: Kernel, k': Kernel, tid: int, ui: nat, r: u32, p: u32, size: u32)
    requires 0 <= tid < |k.tasks| == |k'.tasks|
    requires IsTable(k.tasks[tid].table) && IsTable(k'.tasks[tid].table)
  {
    var task, task' := k.tasks[tid], k'.tasks[tid];
    && ui < |task.blocks| && task.blocks[ui] == 0 && task'.blocks == task.blocks[ui := p]
    && k'.mem.used == k.mem.used + [Block(p, Align4KB(size))]
    && r % PAGE_SIZE == 0 && r + Align4KB(size) <= WORD && size <= Align4KB(size)
    && forall a: u32 ::
         var e, e' := PageEntry(task.table, a / PAGE_SIZE), PageEntry(task'.table, a / PAGE_SIZE);
         if r <= a < r + Align4KB(size) then
           && !Present(e) && Present(e') && Writable(e') && UserPage(e')
           && Translate(task'.table, a) == p + (a - r)
         else e' == e
  }

  /** A request of a live task fails exactly if no pointer place, no run of absent pages, no
      descriptor or no free block is left for it, and then changes nothing; otherwise it hands out a
      block. */
  lemma AllocMemoryGives(k: Kernel, end: nat, tid: int, size: u32)
    requires KernelInv(k, end) && tid in k.live && size > 0
    ensures 0 <= tid < |k.tasks| && IsTable(k.tasks[tid].table) && UsedTask(k, tid)
    ensures var (k', r) := AllocMemory(k, tid, size);
      && (r == 0 <==>
            || (forall i :: 0 <= i < |k.tasks[tid].blocks| ==> k.tasks[tid].blocks[i] != 0)
            || (forall q: nat :: !FreeRun(k.tasks[tid].table, q, PagesOf(size)))
            || |k.mem.used| == MBD_COUNT
            || forall i :: 0 <= i < |k.mem.free| ==> k.mem.free[i].length < Align4KB(size))
      && (r == 0 ==> k' == k)
      && (r != 0 ==>
            && OthersKept(k, k', tid) && k'.live == k.live && IsTable(k'.tasks[tid].table)
            && exists ui, p :: Handed(k, k', tid, ui, r, p, size))
  {
    hide Inv, Aligned, NoEmptyBlock, Alloc, FindPages, Mapped, PageOk, InSpan, Ownership, PagesOf, Align4KB, DirectoryOk;
    LiveTaskOk(k, end, tid);
    var task := k.tasks[tid];
    var ui, start := FreeBlockSlot(task.blocks, 0), FindPages(task.table, size);
    NoRun(task.table, size);
    AllocExact(k.mem, end, size);
    if ui < |task.blocks| && start.Some? && Alloc(k.mem, size).1.Some? {
      FindPagesFree(task, size);
      AllocGives(k.mem, end, size);
      GoodEnd(k.mem, end);
      var p := Alloc(k.mem, size).1.value;
      assert start.value != 0;
      SizeCovers(size);
      GrownHands(k, tid, ui, start.value, size);
      assert Handed(k, AllocMemory(k, tid, size).0, tid, ui, start.value, p, size);
    }
  }

  lemma NoRun(t: seq<u32>, size: u32)
    requires IsTable(t) && size > 0
    ensures FindPages(t, size).None? <==> forall q: nat :: !FreeRun(t, q, PagesOf(size))
  {
  }

  lemma SizeCovers(size: u32)
    requires 0 < size <= 0xFFFF_F000
    ensures size <= Align4KB(size)
  {
  }

  lemma GrownHands(k: Kernel, tid: int, ui: nat, start: u32, size: u32)
    requires 0 <= tid < |k.tasks| && IsTable(k.tasks[tid].table)
    requires ui < |k.tasks[tid].blocks| == |k.tasks[tid].spans| && k.tasks[tid].blocks[ui] == 0
    requires start % PAGE_SIZE == 0 && FreeRun(k.tasks[tid].table, start / PAGE_SIZE, PagesOf(size))
    requires Align4KB(size) == PagesOf(size) * PAGE_SIZE && size <= Align4KB(size)
    requires Alloc(k.mem, size).1.Some?
    requires var (mem', p) := Alloc(k.mem, size);
      && mem'.used == k.mem.used + [Block(p.value, Align4KB(size))]
      && p.value % PAGE_SIZE == 0 && p.value + Align4KB(size) <= WORD
    ensures var (mem', p) := Alloc(k.mem, size);
      Handed(k, k.(mem := mem', tasks := k.tasks[tid := Grown(k.tasks[tid], ui, start, size, p.value)]),
             tid, ui, start, p.value, size)
  {
    hide Alloc, Mapped, PagesOf, Align4KB, Present, Writable, UserPage;
    var task, p := k.tasks[tid], Alloc(k.mem, size).1.value;
    var task' := Grown(task, ui, start, size, p);
    forall a: u32
      ensures var e, e' := PageEntry(task.table, a / PAGE_SIZE), PageEntry(task'.table, a / PAGE_SIZE);
         if start <= a < start + Align4KB(size) then
           && !Present(e) && Present(e') && Writable(e') && UserPage(e')
           && Translate(task'.table, a) == p + (a - start)
         else e' == e
    {
      MappedPage(task.table, start, size, p, RW_RWE, a / PAGE_SIZE);
    }
  }

  /** Memory and slot tid are as before, but for the entries of absent pages. */
  ghost predicate Undone(k: Kernel, k': Kernel, tid: int)
    requires 0 <= tid < |k.tasks| && IsTable(k.tasks[tid].table)
  {
    && OthersKept(k, k', tid) && k'.live == k.live
    && k'.mem.used == k.mem.used
    && (forall x: int :: Weigh(k'.mem.free, At(x)) == Weigh(k.mem.free, At(x)))
    && k'.tasks[tid].(table := k.tasks[tid].table, spans := k.tasks[tid].spans) == k.tasks[tid]
    && IsTable(k'.tasks[tid].table)
    && forall q: nat :: q < PAGE_COUNT ==> SameEntry(k.tasks[tid].table, k'.tasks[tid].table, q)
  }

  /** The page is absent in both tables or has the same entry. */
  ghost predicate SameEntry(t: seq<u32>, t': seq<u32>, q: nat)
    requires IsTable(t) && IsTable(t') && q < PAGE_COUNT
  {
    if Present(PageEntry(t, q)) then PageEntry(t', q) == PageEntry(t, q) else !Present(PageEntry(t', q))
  }

  /** Freeing undoes a request, by the kernel's call and by the system call, which then answers
      TRUE: the same blocks are used, the same addresses free, the pointers are the old ones, the
      pages are absent again and all others as they were. */
  lemma FreeUndoesRequest(k: Kernel, end: nat, tid: int, size: u32)
    requires KernelInv(k, end) && tid in k.live && UsedTask(k, tid) && size > 0
    requires IsTable(k.tasks[tid].table) && |k.tasks[tid].spans| == |k.tasks[tid].blocks|
    requires AllocMemory(k, tid, size).1 != 0 && |AllocMemory(k, tid, size).0.mem.free| < MBD_COUNT
    ensures var (k', r) := AllocMemory(k, tid, size);
      && UsedTask(k', tid) && IsTable(k'.tasks[tid].table)
      && Undone(k, FreeMemory(k', tid, r), tid)
      && Undone(k, UserFree(k', tid, r).0, tid) && UserFree(k', tid, r).1
  {
    hide KernelInv, AllocMemory, FreeMemory, UserFree, Undone, Handed;
    var (k', r) := AllocMemory(k, tid, size);
    AllocMemoryGives(k, end, tid, size);
    var ui, p :| Handed(k, k', tid, ui, r, p, size);
    AllocatedMem(k, end, tid, size, p, ui);
    MemoryBack(k, k', end, size, p);
    PointerBack(k, end, tid, p, size);
    TranslatesBack(k, k', tid, ui, r, p, size);
    assert Handed(k, k', tid, ui, r, p, size);
    FreesBack(k, k', tid, ui, r, p, size);
  }

  lemma MemoryBack(k: Kernel, k': Kernel, end: nat, size: u32, p: u32)
    requires KernelInv(k, end) && 0 < size <= 0xFFFF_F000 && |k'.mem.free| < MBD_COUNT
    requires k'.mem == Alloc(k.mem, size).0 && Alloc(k.mem, size).1 == Some(p)
    ensures BlockSize(k'.mem, p) == Align4KB(size) && Free(k'.mem, p).1 && p != 0
    ensures Free(k'.mem, p).0.used == k.mem.used
    ensures forall x: int :: Weigh(Free(k'.mem, p).0.free, At(x)) == Weigh(k.mem.free, At(x))
  {
    hide Inv, Aligned, NoEmptyBlock, TaskOk, Ownership, ShapeOk, Alloc, Free, BlockSize, Align4KB, Weigh;
    AllocGives(k.mem, end, size);
    FreeUndoesAlloc(k.mem, end, size);
    var b := Block(p, Align4KB(size));
    assert k'.mem.used[|k.mem.used|] == b;
    BlockSizeOf(k'.mem, end, b);
  }

  /** The task had no pointer to the new block. */
  lemma PointerBack(k: Kernel, end: nat, tid: int, p: u32, size: u32)
    requires KernelInv(k, end) && tid in k.live && UsedTask(k, tid) && 0 < size <= 0xFFFF_F000
    requires Alloc(k.mem, size).1 == Some(p)
    ensures p !in k.tasks[tid].blocks
  {
    hide Inv, Aligned, NoEmptyBlock, PageOk, DirectoryOk, Alloc, Align4KB;
    LiveTaskOk(k, end, tid);
    AllocGives(k.mem, end, size);
    forall i | 0 <= i < |k.tasks[tid].blocks|
      ensures k.tasks[tid].blocks[i] != p
    {
      if k.tasks[tid].blocks[i] != 0 {
        assert Owns(k, Dynamic(tid, i)) && BlockOwned(k, Dynamic(tid, i)) in k.mem.used;
      }
    }
  }

  lemma TranslatesBack(k: Kernel, k': Kernel, tid: int, ui: nat, r: u32, p: u32, size: u32)
    requires 0 <= tid < |k.tasks| == |k'.tasks| && size > 0
    requires IsTable(k.tasks[tid].table) && IsTable(k'.tasks[tid].table)
    requires Handed(k, k', tid, ui, r, p, size)
    ensures Translate(k'.tasks[tid].table, r) == p
    ensures PagesOf(Align4KB(size)) == Align4KB(size) / PAGE_SIZE
  {
    hide Translate, Present, Writable, UserPage, Align4KB;
    Align4KBRounds(size);
  }

  lemma FreesBack(k: Kernel, k': Kernel, tid: int, ui: nat, r: u32, p: u32, size: u32)
    requires UsedTask(k, tid) && UsedTask(k', tid) && OthersKept(k, k', tid) && k'.live == k.live
    requires IsTable(k.tasks[tid].table) && IsTable(k'.tasks[tid].table)
    requires Handed(k, k', tid, ui, r, p, size) && p !in k.tasks[tid].blocks && p != 0 && r != 0
    requires k'.tasks[tid].(table := k.tasks[tid].table, spans := k.tasks[tid].spans,
                            blocks := k.tasks[tid].blocks) == k.tasks[tid]
    requires Translate(k'.tasks[tid].table, r) == p && PagesOf(Align4KB(size)) == Align4KB(size) / PAGE_SIZE
    requires BlockSize(k'.mem, p) == Align4KB(size) > 0 && Free(k'.mem, p).1
    requires Free(k'.mem, p).0.used == k.mem.used
    requires forall x: int :: Weigh(Free(k'.mem, p).0.free, At(x)) == Weigh(k.mem.free, At(x))
    ensures Undone(k, FreeMemory(k', tid, r), tid)
    ensures Undone(k, UserFree(k', tid, r).0, tid) && UserFree(k', tid, r).1
  {
    hide Translate, Present, Align4KB, PagesOf, Free, BlockSize, Weigh, Freed, SameEntry;
    var task, task' := k.tasks[tid], k'.tasks[tid];
    var t := Freed(task'.table, r, Align4KB(size));
    forall q: nat | q < PAGE_COUNT
      ensures SameEntry(task.table, t, q)
    {
      EntryBack(k, k', tid, ui, r, p, size, q);
    }
    assert Forget(task'.blocks, p) == task.blocks;
    assert PlaceOf(task'.blocks, p, 0) == ui;
  }

  lemma EntryBack(k: Kernel, k': Kernel, tid: int, ui: nat, r: u32, p: u32, size: u32, q: nat)
    requires 0 <= tid < |k.tasks| == |k'.tasks| && q < PAGE_COUNT
    requires IsTable(k.tasks[tid].table) && IsTable(k'.tasks[tid].table)
    requires Handed(k, k', tid, ui, r, p, size) && PagesOf(Align4KB(size)) == Align4KB(size) / PAGE_SIZE
    ensures SameEntry(k.tasks[tid].table, Freed(k'.tasks[tid].table, r, Align4KB(size)), q)
  {
    hide Translate, Present, Align4KB, PagesOf, Freed, Writable, UserPage;
    FreedPage(k'.tasks[tid].table, r, Align4KB(size), q);
    var a: u32 := q * PAGE_SIZE;
    assert a / PAGE_SIZE == q;
    Align4KBRounds(size);
  }

  /** The request took its block from the allocator. */
  lemma AllocatedMem(k: Kernel, end: nat, tid: int, size: u32, p: u32, ui: nat)
    requires KernelInv(k, end) && tid in k.live && UsedTask(k, tid) && size > 0
    requires IsTable(k.tasks[tid].table) && |k.tasks[tid].spans| == |k.tasks[tid].blocks|
    requires AllocMemory(k, tid, size).1 != 0
    requires Handed(k, AllocMemory(k, tid, size).0, tid, ui, AllocMemory(k, tid, size).1, p, size)
    ensures AllocMemory(k, tid, size).0.mem == Alloc(k.mem, size).0 && Alloc(k.mem, size).1 == Some(p)
    ensures size <= 0xFFFF_F000
    ensures var task, task' := k.tasks[tid], AllocMemory(k, tid, size).0.tasks[tid];
      && task'.used && IsTable(task'.table)
      && task'.(table := task.table, spans := task.spans, blocks := task.blocks) == task
  {
    hide Inv, Aligned, NoEmptyBlock, PageOk, DirectoryOk, Alloc, Align4KB, FindPages, Mapped, PagesOf;
    LiveTaskOk(k, end, tid);
    AllocExact(k.mem, end, size);
    FindPagesFree(k.tasks[tid], size);
    var used := AllocMemory(k, tid, size).0.mem.used;
    assert used[|k.mem.used|] == Block(p, Align4KB(size));
  }
}
