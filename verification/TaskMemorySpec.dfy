/** The memory of tasks: what creating, killing, and the memory calls of a task do to the
    allocator and to the page tables, and the isolation every run keeps. */
module TaskMemorySpec {
  import opened Machine
  import opened MemorySpec
  import opened Paging

  const MAX_APP_LEN: nat := 16 * 1024 * 1024
  const MAX_TASK_MEMORY_BLOCK_COUNT: nat := 10 * 1024
  const KERNEL_LENGTH: u32 := 0x0100_0000
  const IMAGE_START: u32 := 0x0100_0000
  const IMAGE_PAGE: nat := 0x1000
  const IMAGE_EXTRA: nat := 3 * 1024 * 1024
  const PAGEDT_LENGTH: u32 := PAGE_SIZE + PAGE_SIZE + 1024 * PAGE_SIZE + PAGE_SIZE
  const STACK_LENGTH: u32 := 1024 * 1024

  /** Where a memory block of a task sits in its linear space, in pages. */
  datatype Span = Span(first: nat, pages: nat)

  /** A task slot with the system-call stack of its number.  The spans are bookkeeping of the model, not a field of the source: no
      operation's outcome depends on them. */
  datatype Task = Task(used: bool, allocable: bool, appLen: nat, addr: u32, pagedt: u32,
                       stack: u32, blocks: seq<u32>, spans: seq<Span>, table: seq<u32>)

  /** The allocator, the task slots, (bookkeeping) the ids that creation has returned and that
      were not killed since, and the ids that threads inside `_TskmgrKillTask` have checked, -1
      once they are done. */
  datatype Kernel = Kernel(mem: Mem, tasks: seq<Task>, live: set<int>, killers: seq<int>)

  // --------------------------------------------------------------- operations

  function NoBlocks(): (bs: seq<u32>)
    ensures |bs| == MAX_TASK_MEMORY_BLOCK_COUNT && forall i :: 0 <= i < |bs| ==> bs[i] == 0
  {
    seq(MAX_TASK_MEMORY_BLOCK_COUNT, i requires 0 <= i < MAX_TASK_MEMORY_BLOCK_COUNT => ZERO)
  }

  const ZERO: u32 := 0

  /** The first slot that is neither used nor reserved, or -1. */
  function FreeSlot(tasks: seq<Task>, i: nat): (tid: int)
    requires i <= |tasks|
    ensures tid == -1 || (i <= tid < |tasks| && !tasks[tid].used && tasks[tid].allocable)
    ensures forall j :: i <= j < (if tid == -1 then |tasks| else tid) ==> tasks[j].used || !tasks[j].allocable
    decreases |tasks| - i
  {
    if i == |tasks| then -1
    else if !tasks[i].used && tasks[i].allocable then i
    else FreeSlot(tasks, i + 1)
  }

  function ImageLength(appLen: nat): u32
    requires appLen <= MAX_APP_LEN
  {
    IMAGE_EXTRA + appLen
  }

  /** Where the page directory starts in its block. */
  function TableBase(pagedt: u32): u32 {
    Wrap(pagedt + (PAGE_SIZE - pagedt % PAGE_SIZE))
  }

  /** The page table of a new task: the kernel range and the first image page read-only, the
      rest of the image writable. */
  function TaskTable(appLen: nat, addr: u32, pagedt: u32): (t: seq<u32>)
    requires appLen <= MAX_APP_LEN
    ensures IsTable(t)
  {
    var t0 := EmptyTable(TableBase(pagedt));
    var t1 := Mapped(t0, 0, KERNEL_LENGTH, 0, RW_RE);
    var t2 := Mapped(t1, IMAGE_START, ImageLength(appLen), addr, RW_RWE);
    Mapped(t2, IMAGE_START, PAGE_SIZE, addr, RW_RE)
  }

  /** `_TskmgrCreateTask`.  Without memory for the system-call stack nothing happens; a slot whose
      creation runs out of memory later stays used. */
  function Create(k: Kernel, appLen: nat): (Kernel, int) {
    if appLen > MAX_APP_LEN then (k, -1)
    else
      var tid := FreeSlot(k.tasks, 0);
      var (mem0, p) := Alloc(k.mem, STACK_LENGTH);
      if tid == -1 || p.None? then (k, -1)
      else Launch(Stacked(k, tid, mem0, p.value), tid, appLen)
  }

  /** Slot tid has its new system-call stack. */
  function Stacked(k: Kernel, tid: int, mem: Mem, stack: u32): Kernel
    requires 0 <= tid < |k.tasks|
  {
    k.(mem := mem, tasks := k.tasks[tid := k.tasks[tid].(stack := stack)])
  }

  /** The rest of a creation. */
  function Launch(k: Kernel, tid: int, appLen: nat): (Kernel, int)
    requires 0 <= tid < |k.tasks| && appLen <= MAX_APP_LEN
  {
    var task := k.tasks[tid].(used := true, appLen := appLen);
    var (mem1, a) := Alloc(k.mem, ImageLength(appLen));
    if a.None? then (k.(tasks := k.tasks[tid := task.(addr := 0)]), -1)
    else
      var (mem2, d) := Alloc(mem1, PAGEDT_LENGTH);
      if d.None? then
        (k.(mem := Free(mem1, a.value).0,
            tasks := k.tasks[tid := task.(addr := a.value, blocks := NoBlocks(), pagedt := 0)]), -1)
      else
        var task' := task.(addr := a.value, blocks := NoBlocks(), pagedt := d.value,
                           table := TaskTable(appLen, a.value, d.value));
        (k.(mem := mem2, tasks := k.tasks[tid := task'], live := k.live + {tid}), tid)
  }

  /** Frees the non-NULL addresses in order. */
  function FreeEach(s: Mem, ps: seq<u32>): Mem
    decreases |ps|
  {
    if ps == [] then s else FreeEach(if ps[0] == 0 then s else Free(s, ps[0]).0, ps[1..])
  }

  predicate UsedTask(k: Kernel, tid: int) {
    0 <= tid < |k.tasks| && k.tasks[tid].used
  }

  /** Every address that ending a kill of tid frees. */
  function KillList(k: Kernel, tid: int): seq<u32>
    requires 0 <= tid < |k.tasks|
  {
    [k.tasks[tid].addr] + k.tasks[tid].blocks + [k.tasks[tid].pagedt, k.tasks[tid].stack]
  }

  /** The check at the start of `_TskmgrKillTask`. */
  function KillBegin(k: Kernel, tid: int): Kernel {
    if UsedTask(k, tid) then k.(killers := k.killers + [tid]) else k
  }

  /** What `_TskmgrKillTask` frees and clears.  Interrupts were on since its check, and the slot is
      not checked again. */
  function Kill(k: Kernel, tid: int): Kernel
    requires 0 <= tid < |k.tasks|
  {
    k.(mem := FreeEach(k.mem, KillList(k, tid)),
       tasks := k.tasks[tid := k.tasks[tid].(used := false, blocks := NoBlocks())],
       live := k.live - {tid})
  }

  predicate Killing(k: Kernel, i: nat) {
    i < |k.killers| && 0 <= k.killers[i] < |k.tasks|
  }

  /** The end of a kill; busy says that the task still holds a disk lock. */
  function KillEnd(k: Kernel, i: nat, busy: bool): Kernel {
    if !Killing(k, i) then k
    else
      var after := k.(killers := k.killers[i := -1]);
      if busy then after else Kill(after, k.killers[i])
  }

  function FreeBlockSlot(blocks: seq<u32>, i: nat): (ui: nat)
    requires i <= |blocks|
    ensures i <= ui <= |blocks| && (ui < |blocks| ==> blocks[ui] == 0)
    ensures forall j :: i <= j < ui ==> blocks[j] != 0
    decreases |blocks| - i
  {
    if i == |blocks| || blocks[i] == 0 then i else FreeBlockSlot(blocks, i + 1)
  }

  /** The lowest run of r absent pages at or above page q. */
  ghost function FindRun(t: seq<u32>, q: nat, r: nat): (o: Option<nat>)
    requires IsTable(t)
    ensures o.Some? ==> q <= o.value && FreeRun(t, o.value, r) && forall q': nat :: q <= q' < o.value ==> !FreeRun(t, q', r)
    ensures o.None? ==> forall q': nat :: q <= q' ==> !FreeRun(t, q', r)
    decreases PAGE_COUNT - q
  {
    if q + r > PAGE_COUNT then None
    else if FreeRun(t, q, r) then Some(q)
    else if q == PAGE_COUNT then None
    else FindRun(t, q + 1, r)
  }

  /** The address `PgFindFreePages` reports. */
  ghost function FindPages(t: seq<u32>, length: u32): Option<u32>
    requires IsTable(t)
  {
    if length == 0 then
      if exists p :: 0 <= p < PAGE_COUNT && Present(PageEntry(t, p)) then Some(0) else None
    else
      match FindRun(t, 0, PagesOf(length))
      case None => None
      case Some(q) => Some(Wrap(PAGE_SIZE * if q == 0 && PagesOf(length) >= 2 then 1 else q))
  }

  /** The task after block p was put in place ui and mapped from start on. */
  function Grown(task: Task, ui: nat, start: u32, size: u32, p: u32): Task
    requires IsTable(task.table) && ui < |task.blocks| == |task.spans|
  {
    task.(table := Mapped(task.table, start, size, p, RW_RWE),
          blocks := task.blocks[ui := p],
          spans := task.spans[ui := Span(start / PAGE_SIZE, PagesOf(size))])
  }

  /** `TaskmgrAllocMemory`: the linear address handed to the task, 0 for NULL. */
  ghost function AllocMemory(k: Kernel, tid: int, size: u32): (Kernel, u32)
    requires UsedTask(k, tid) ==> IsTable(k.tasks[tid].table) && |k.tasks[tid].spans| == |k.tasks[tid].blocks|
  {
    if !UsedTask(k, tid) then (k, 0)
    else
      var task := k.tasks[tid];
      var ui := FreeBlockSlot(task.blocks, 0);
      var start := FindPages(task.table, size);
      if ui == |task.blocks| || start.None? then (k, 0)
      else
        var (mem', p) := Alloc(k.mem, size);
        if p.None? then (k, 0)
        else
          (k.(mem := mem', tasks := k.tasks[tid := Grown(task, ui, start.value, size, p.value)]), start.value)
  }

  function Forget(blocks: seq<u32>, p: u32): (bs: seq<u32>)
    ensures |bs| == |blocks| && forall i :: 0 <= i < |bs| ==> bs[i] == if blocks[i] == p then 0 else blocks[i]
  {
    seq(|blocks|, i requires 0 <= i < |blocks| => if blocks[i] == p then ZERO else blocks[i])
  }

  /** `TaskmgrFreeMemory` */
  function FreeMemory(k: Kernel, tid: int, address: u32): Kernel
    requires UsedTask(k, tid) ==> IsTable(k.tasks[tid].table)
  {
    if !UsedTask(k, tid) then k
    else
      var task := k.tasks[tid];
      var p := Translate(task.table, address);
      if p == 0 then k
      else
        var task' := task.(table := Freed(task.table, address, BlockSize(k.mem, p)), blocks := Forget(task.blocks, p));
        k.(mem := Free(k.mem, p).0, tasks := k.tasks[tid := task'])
  }

  /** The first place of `p` among the block pointers, or their number. */
  function PlaceOf(blocks: seq<u32>, p: u32, i: nat): (ui: nat)
    requires i <= |blocks|
    ensures i <= ui <= |blocks| && (ui < |blocks| ==> blocks[ui] == p)
    ensures forall j :: i <= j < ui ==> blocks[j] != p
    decreases |blocks| - i
  {
    if i == |blocks| || blocks[i] == p then i else PlaceOf(blocks, p, i + 1)
  }

  /** The system call that frees memory: only a recorded block, found by its physical address. */
  function UserFree(k: Kernel, tid: int, address: u32): (Kernel, bool)
    requires UsedTask(k, tid) ==> IsTable(k.tasks[tid].table)
  {
    if !UsedTask(k, tid) || address == 0 then (k, false)
    else
      var task := k.tasks[tid];
      var p := Translate(task.table, address);
      var ui := PlaceOf(task.blocks, p, 0);
      var size := BlockSize(k.mem, p);
      if p == 0 || ui == |task.blocks| || size == 0 then (k, false)
      else
        var unmapped := task.(table := Freed(task.table, address, size));
        if address / PAGE_SIZE + PagesOf(size) > PAGE_COUNT then (k.(tasks := k.tasks[tid := unmapped]), false)
        else
          (k.(mem := Free(k.mem, p).0,
              tasks := k.tasks[tid := unmapped.(blocks := task.blocks[ui := 0])]), Free(k.mem, p).1)
  }

  // ------------------------------------------------------------- ownership

  /** What a block of the allocator can belong to. */
  datatype Owner = Image(tid: int) | PageTable(tid: int) | Stack(tid: int) | Dynamic(tid: int, slot: nat)

  ghost predicate Owns(k: Kernel, o: Owner) {
    && o.tid in k.live
    && 0 <= o.tid < |k.tasks|
    && (o.Dynamic? ==> o.slot < |k.tasks[o.tid].blocks| == |k.tasks[o.tid].spans| && k.tasks[o.tid].blocks[o.slot] != 0)
    && k.tasks[o.tid].appLen <= MAX_APP_LEN
  }

  ghost function BlockOwned(k: Kernel, o: Owner): Block
    requires Owns(k, o)
  {
    var task := k.tasks[o.tid];
    match o
    case Image(_) => Block(task.addr, Align4KB(ImageLength(task.appLen)))
    case PageTable(_) => Block(task.pagedt, PAGEDT_LENGTH)
    case Stack(_) => Block(task.stack, STACK_LENGTH)
    case Dynamic(_, i) => Block(task.blocks[i], Wrap(task.spans[i].pages * PAGE_SIZE))
  }

  /** Every live task's blocks are used blocks of the allocator, all different. */
  ghost predicate Ownership(k: Kernel) {
    && (forall o :: Owns(k, o) ==> BlockOwned(k, o) in k.mem.used)
    && (forall o, o' :: Owns(k, o) && Owns(k, o') && o != o' ==> BlockOwned(k, o).start != BlockOwned(k, o').start)
  }

  // ---------------------------------------------------------------- mapping

  function ImagePages(task: Task): nat
    requires task.appLen <= MAX_APP_LEN
  {
    PagesOf(ImageLength(task.appLen))
  }

  ghost predicate InSpan(task: Task, i: nat, p: nat) {
    && i < |task.blocks| == |task.spans|
    && task.blocks[i] != 0
    && task.spans[i].first <= p < task.spans[i].first + task.spans[i].pages
  }

  ghost predicate MapsTo(entry: u32, block: u32, offset: nat) {
    Present(entry) && Writable(entry) && UserPage(entry) && Frame(entry) == block / PAGE_SIZE + offset
  }

  /** Page p of a live task: the kernel's own page p or the first of its image, read-only; its image,
      one of its blocks, or absent. */
  ghost predicate PageOk(task: Task, p: nat)
    requires IsTable(task.table) && p < PAGE_COUNT && task.appLen <= MAX_APP_LEN
  {
    var e := PageEntry(task.table, p);
    if p <= IMAGE_PAGE then
      && Present(e) && !Writable(e) && UserPage(e)
      && Frame(e) == if p < IMAGE_PAGE then p else task.addr / PAGE_SIZE
    else if p < IMAGE_PAGE + ImagePages(task) then MapsTo(e, task.addr, p - IMAGE_PAGE)
    else
      && (Present(e) ==> exists i :: 0 <= i < |task.blocks| && InSpan(task, i, p))
      && (forall i :: 0 <= i < |task.blocks| && InSpan(task, i, p) ==> MapsTo(e, task.blocks[i], p - task.spans[i].first))
  }

  /** The directory entries are those of the empty table. */
  ghost predicate DirectoryOk(task: Task)
    requires IsTable(task.table)
  {
    forall d :: 0 <= d < TABLE_ITEM_COUNT ==> task.table[d] == EmptyTable(TableBase(task.pagedt))[d]
  }

  ghost predicate TaskOk(task: Task) {
    && task.used
    && task.appLen <= MAX_APP_LEN
    && IsTable(task.table)
    && task.addr % PAGE_SIZE == 0
    && |task.blocks| == |task.spans| == MAX_TASK_MEMORY_BLOCK_COUNT
    && (forall i :: 0 <= i < |task.blocks| && task.blocks[i] != 0 ==>
          && task.blocks[i] % PAGE_SIZE == 0
          && task.spans[i].pages > 0
          && IMAGE_PAGE + ImagePages(task) <= task.spans[i].first
          && task.spans[i].first + task.spans[i].pages <= PAGE_COUNT)
    && (forall p :: 0 <= p < PAGE_COUNT ==> PageOk(task, p))
    && DirectoryOk(task)
  }

  ghost predicate ShapeOk(k: Kernel) {
    && |k.tasks| == MAX_TASK_COUNT
    && (forall t :: 0 <= t < |k.tasks| ==>
          IsTable(k.tasks[t].table) && |k.tasks[t].blocks| == |k.tasks[t].spans| == MAX_TASK_MEMORY_BLOCK_COUNT)
    && (forall t :: t in k.live ==> 0 <= t < |k.tasks|)
  }

  ghost predicate KernelInv(k: Kernel, end: nat) {
    && Inv(k.mem, end)
    && NoEmptyBlock(k.mem)
    && Aligned(k.mem)
    && ShapeOk(k)
    && (forall t :: t in k.live ==> TaskOk(k.tasks[t]))
    && Ownership(k)
  }

  // ------------------------------------------------------- the allocator's part

  ghost predicate GoodMem(s: Mem, end: nat) {
    Inv(s, end) && NoEmptyBlock(s) && Aligned(s)
  }

  lemma AllocGives(s: Mem, end: nat, length: u32)
    requires GoodMem(s, end) && 0 < length <= 0xFFFF_F000
    ensures GoodMem(Alloc(s, length).0, end)
    ensures Alloc(s, length).1.None? ==> Alloc(s, length).0 == s
    ensures Alloc(s, length).1.Some? ==>
              var (s', r) := Alloc(s, length);
              && s'.used == s.used + [Block(r.value, Align4KB(length))]
              && r.value % PAGE_SIZE == 0 && r.value >= ALLOC_START
              && r.value + Align4KB(length) <= end
              && forall b :: b in s.used ==> b.start != r.value
  {
    AllocKeepsInv(s, end, ALLOC_START, length);
    AllocEmptyIff(s, ALLOC_START, length);
    MemAllocEmptyIff(s, end, length);
    AllocKeepsAligned(s, end, length);
    AllocExact(s, end, length);
    var (s', r) := Alloc(s, length);
    if r.Some? {
      var n := |s.used|;
      assert s'.used[n] == Block(r.value, Align4KB(length));
      forall b | b in s.used
        ensures b.start != r.value
      {
        var i :| 0 <= i < |s.used| && s.used[i] == b;
        assert s'.used[i] == b;
        if b.start == r.value {
          UsedStartsUnique(s', end, i, n);
        }
      }
    }
  }

  lemma FreeKeeps(s: Mem, end: nat, p: u32)
    requires GoodMem(s, end)
    ensures GoodMem(Free(s, p).0, end)
    ensures forall b :: b in s.used && b.start != p ==> b in Free(s, p).0.used
    ensures forall b :: b in Free(s, p).0.used ==> b in s.used
  {
    FreeKeepsInv(s, end, p);
    FreeKeepsNoEmptyBlock(s, end, p);
    FreeKeepsAligned(s, end, p);
    var i := FirstAt(s.used, 0, p);
    var used' := Free(s, p).0.used;
    if i >= 0 && |s.free| < MBD_COUNT {
      forall b | b in s.used && b.start != p
        ensures b in used'
      {
        var j :| 0 <= j < |s.used| && s.used[j] == b;
        assert used'[if j < i then j else j - 1] == b;
      }
    }
  }

  lemma {:induction false} FreeEachKeeps(s: Mem, end: nat, ps: seq<u32>)
    requires GoodMem(s, end)
    ensures GoodMem(FreeEach(s, ps), end)
    ensures forall b :: b in s.used && b.start !in ps ==> b in FreeEach(s, ps).used
    decreases |ps|
  {
    if ps != [] {
      var s' := if ps[0] == 0 then s else Free(s, ps[0]).0;
      FreeKeeps(s, end, ps[0]);
      FreeEachKeeps(s', end, ps[1..]);
      forall b | b in s.used && b.start !in ps
        ensures b in FreeEach(s, ps).used
      {
        assert b in s'.used;
        assert b.start !in ps[1..];
      }
    }
  }

  lemma BlockSizeOf(s: Mem, end: nat, b: Block)
    requires GoodMem(s, end) && b in s.used
    ensures BlockSize(s, b.start) == b.length
  {
    var i := FirstAt(s.used, 0, b.start);
    var j :| 0 <= j < |s.used| && s.used[j] == b;
    UsedStartsUnique(s, end, i, j);
  }

  lemma UsedDisjoint(s: Mem, end: nat, b: Block, c: Block, a: int)
    requires GoodMem(s, end) && b in s.used && c in s.used && b.Contains(a) && c.Contains(a)
    ensures b == c
  {
    var i :| 0 <= i < |s.used| && s.used[i] == b;
    var j :| 0 <= j < |s.used| && s.used[j] == c;
    var n := |s.free|;
    assert (s.free + s.used)[n + i] == b && (s.free + s.used)[n + j] == c;
    BlocksDisjoint(s, end, n + i, n + j, a);
  }

  lemma UsedBlockShape(s: Mem, end: nat, b: Block)
    requires GoodMem(s, end) && b in s.used
    ensures b.start % PAGE_SIZE == 0 && b.length % PAGE_SIZE == 0 && ALLOC_START <= b.start && b.End() <= end <= WORD
  {
  }

  // --------------------------------------------------------------- isolation

  ghost predicate WritablePage(k: Kernel, t: int, p: nat) {
    && t in k.live && 0 <= t < |k.tasks| && IsTable(k.tasks[t].table) && p < PAGE_COUNT
    && Present(PageEntry(k.tasks[t].table, p)) && Writable(PageEntry(k.tasks[t].table, p))
  }

  ghost function FrameAddress(k: Kernel, t: int, p: nat): nat
    requires WritablePage(k, t, p)
  {
    Frame(PageEntry(k.tasks[t].table, p)) * PAGE_SIZE
  }

  /** The first linear page of an owner's block. */
  ghost function FirstPage(k: Kernel, o: Owner): nat
    requires Owns(k, o)
  {
    match o
    case Image(_) => IMAGE_PAGE
    case PageTable(_) => 0
    case Stack(_) => 0
    case Dynamic(_, i) => k.tasks[o.tid].spans[i].first
  }

  lemma ImageSize(task: Task)
    requires task.appLen <= MAX_APP_LEN
    ensures Align4KB(ImageLength(task.appLen)) == ImagePages(task) * PAGE_SIZE
    ensures 0 < ImageLength(task.appLen) <= 0xFFFF_F000 && 0 < ImagePages(task) <= 0x2000
  {
  }

  /** A writable page of a live task lies in its image or in one of its blocks, at the
      offset of the page. */
  lemma WritableHasOwner(k: Kernel, end: nat, t: int, p: nat) returns (o: Owner)
    requires KernelInv(k, end) && WritablePage(k, t, p)
    ensures Owns(k, o) && o.tid == t && (o.Image? || o.Dynamic?) && BlockOwned(k, o) in k.mem.used
    ensures FirstPage(k, o) <= p && FrameAddress(k, t, p) == BlockOwned(k, o).start + (p - FirstPage(k, o)) * PAGE_SIZE
    ensures BlockOwned(k, o).Contains(FrameAddress(k, t, p))
  {
    var task := k.tasks[t];
    assert TaskOk(task) && PageOk(task, p);
    if p < IMAGE_PAGE + ImagePages(task) {
      o := Image(t);
      ImageSize(task);
    } else {
      var i :| 0 <= i < |task.blocks| && InSpan(task, i, p);
      o := Dynamic(t, i);
    }
    assert BlockOwned(k, o) in k.mem.used;
  }

  /** No physical frame is mapped writable twice, neither by two live tasks nor at two pages of one. */
  lemma NoFrameShared(k: Kernel, end: nat, t: int, p: nat, u: int, q: nat)
    requires KernelInv(k, end) && WritablePage(k, t, p) && WritablePage(k, u, q)
    requires FrameAddress(k, t, p) == FrameAddress(k, u, q)
    ensures t == u && p == q
  {
    var o := WritableHasOwner(k, end, t, p);
    var o' := WritableHasOwner(k, end, u, q);
    UsedDisjoint(k.mem, end, BlockOwned(k, o), BlockOwned(k, o'), FrameAddress(k, t, p));
    assert o == o';
  }

  /** No writable mapping reaches the page tables or the system-call stack of a live task. */
  lemma KernelBlocksUnreachable(k: Kernel, end: nat, t: int, p: nat, v: int)
    requires KernelInv(k, end) && WritablePage(k, t, p) && v in k.live && 0 <= v < |k.tasks|
    ensures !(k.tasks[v].pagedt <= FrameAddress(k, t, p) < k.tasks[v].pagedt + PAGEDT_LENGTH)
    ensures !(k.tasks[v].stack <= FrameAddress(k, t, p) < k.tasks[v].stack + STACK_LENGTH)
  {
    assert TaskOk(k.tasks[v]);
    OwnerUnreachable(k, end, t, p, PageTable(v));
    OwnerUnreachable(k, end, t, p, Stack(v));
  }

  lemma OwnerUnreachable(k: Kernel, end: nat, t: int, p: nat, o: Owner)
    requires KernelInv(k, end) && WritablePage(k, t, p) && Owns(k, o) && (o.PageTable? || o.Stack?)
    ensures !BlockOwned(k, o).Contains(FrameAddress(k, t, p))
  {
    var o' := WritableHasOwner(k, end, t, p);
    assert BlockOwned(k, o) in k.mem.used;
    if BlockOwned(k, o).Contains(FrameAddress(k, t, p)) {
      UsedDisjoint(k.mem, end, BlockOwned(k, o'), BlockOwned(k, o), FrameAddress(k, t, p));
    }
  }

  lemma SpanFrame(k: Kernel, end: nat, t: int, i: nat, p: nat)
    requires KernelInv(k, end) && t in k.live && p < PAGE_COUNT && InSpan(k.tasks[t], i, p)
    ensures IsTable(k.tasks[t].table) && Owns(k, Dynamic(t, i))
    ensures BlockOwned(k, Dynamic(t, i)) in k.mem.used
    ensures BlockOwned(k, Dynamic(t, i)).Contains(Frame(PageEntry(k.tasks[t].table, p)) * PAGE_SIZE)
  {
    hide PageEntry, DirectoryOk, Align4KB;
    assert TaskOk(k.tasks[t]) && PageOk(k.tasks[t], p);
  }

  /** Spans of one task do not overlap: a page in two of them would name one frame twice. */
  lemma SpansDisjoint(k: Kernel, end: nat, t: int, i: nat, j: nat, p: nat)
    requires KernelInv(k, end) && t in k.live && p < PAGE_COUNT
    requires InSpan(k.tasks[t], i, p) && InSpan(k.tasks[t], j, p)
    ensures i == j
  {
    hide PageEntry, InSpan, TaskOk, Owns, BlockOwned;
    SpanFrame(k, end, t, i, p);
    SpanFrame(k, end, t, j, p);
    var b, c := BlockOwned(k, Dynamic(t, i)), BlockOwned(k, Dynamic(t, j));
    UsedDisjoint(k.mem, end, b, c, Frame(PageEntry(k.tasks[t].table, p)) * PAGE_SIZE);
    assert i != j ==> Dynamic(t, i) != Dynamic(t, j);
  }

  // ---------------------------------------------------------------- creation

  lemma MappedPage(t: seq<u32>, start: u32, length: u32, base: u32, rw: Bit, p: nat)
    requires IsTable(t) && start % PAGE_SIZE == 0 && base % PAGE_SIZE == 0 && p < PAGE_COUNT
    requires start / PAGE_SIZE + PagesOf(length) <= PAGE_COUNT && base + PagesOf(length) * PAGE_SIZE <= WORD
    ensures var e := PageEntry(Mapped(t, start, length, base, rw), p);
            var first := start / PAGE_SIZE;
            if first <= p < first + PagesOf(length) then
              && Present(e) && (Writable(e) <==> rw == RW_RWE) && UserPage(e)
              && Frame(e) == base / PAGE_SIZE + (p - first)
            else e == PageEntry(t, p)
  {
    var first := start / PAGE_SIZE;
    if first <= p < first + PagesOf(length) {
      TableItemFields(base / PAGE_SIZE + (p - first), US_USER, rw, P_VALID);
    }
  }

  lemma TaskTablePage(appLen: nat, addr: u32, pagedt: u32, p: nat)
    requires appLen <= MAX_APP_LEN && addr % PAGE_SIZE == 0 && p < PAGE_COUNT
    requires addr + Align4KB(ImageLength(appLen)) <= WORD
    ensures var e := PageEntry(TaskTable(appLen, addr, pagedt), p);
            && (p <= IMAGE_PAGE ==> Present(e) && !Writable(e) && UserPage(e))
            && (p < IMAGE_PAGE ==> Frame(e) == p) && (p == IMAGE_PAGE ==> Frame(e) == addr / PAGE_SIZE)
            && (IMAGE_PAGE < p < IMAGE_PAGE + PagesOf(ImageLength(appLen)) ==> MapsTo(e, addr, p - IMAGE_PAGE))
            && (IMAGE_PAGE + PagesOf(ImageLength(appLen)) <= p ==> !Present(e))
  {
    var base := TableBase(pagedt);
    var length := ImageLength(appLen);
    var t0 := EmptyTable(base);
    var t1 := Mapped(t0, 0, KERNEL_LENGTH, 0, RW_RE);
    var t2 := Mapped(t1, IMAGE_START, length, addr, RW_RWE);
    assert PagesOf(KERNEL_LENGTH) == IMAGE_PAGE && PagesOf(PAGE_SIZE) == 1;
    assert PagesOf(length) * PAGE_SIZE == Align4KB(length) && PagesOf(length) > 0;
    hide Mapped, EmptyTable, Align4KB, PagesOf;
    EmptyPage(base, p);
    MappedPage(t0, 0, KERNEL_LENGTH, 0, RW_RE, p);
    MappedPage(t1, IMAGE_START, length, addr, RW_RWE, p);
    MappedPage(t2, IMAGE_START, PAGE_SIZE, addr, RW_RE, p);
  }

  /** Mapping and freeing leave the directory alone. */
  lemma DirectoryKept(t: seq<u32>, start: u32, length: u32, base: u32, rw: Bit, d: nat)
    requires IsTable(t) && d < TABLE_ITEM_COUNT
    ensures Mapped(t, start, length, base, rw)[d] == t[d] == Freed(t, start, length)[d]
  {
  }

  lemma NewDirectory(task: Task)
    requires task.appLen <= MAX_APP_LEN && task.table == TaskTable(task.appLen, task.addr, task.pagedt)
    ensures DirectoryOk(task)
  {
    hide Mapped, EmptyTable, Freed;
    var t0 := EmptyTable(TableBase(task.pagedt));
    var t1 := Mapped(t0, 0, KERNEL_LENGTH, 0, RW_RE);
    var t2 := Mapped(t1, IMAGE_START, ImageLength(task.appLen), task.addr, RW_RWE);
    forall d | 0 <= d < TABLE_ITEM_COUNT
      ensures task.table[d] == t0[d]
    {
      DirectoryKept(t0, 0, KERNEL_LENGTH, 0, RW_RE, d);
      DirectoryKept(t1, IMAGE_START, ImageLength(task.appLen), task.addr, RW_RWE, d);
      DirectoryKept(t2, IMAGE_START, PAGE_SIZE, task.addr, RW_RE, d);
    }
  }

  lemma NewTaskOk(task: Task)
    requires task.used && task.appLen <= MAX_APP_LEN && task.addr % PAGE_SIZE == 0
    requires task.addr + Align4KB(ImageLength(task.appLen)) <= WORD
    requires task.blocks == NoBlocks() && |task.spans| == MAX_TASK_MEMORY_BLOCK_COUNT
    requires task.table == TaskTable(task.appLen, task.addr, task.pagedt)
    ensures TaskOk(task)
  {
    hide TaskTable;
    NewDirectory(task);
    forall p | 0 <= p < PAGE_COUNT
      ensures PageOk(task, p)
    {
      TaskTablePage(task.appLen, task.addr, task.pagedt, p);
    }
  }

  lemma PageTableSize()
    ensures Align4KB(PAGEDT_LENGTH) == PAGEDT_LENGTH && 0 < PAGEDT_LENGTH <= 0xFFFF_F000
  {
  }

  /** Owners other than task tid's keep their blocks when the memory keeps those blocks. */
  lemma OtherOwners(k: Kernel, k': Kernel, tid: int)
    requires ShapeOk(k) && ShapeOk(k') && Ownership(k)
    requires forall t :: 0 <= t < |k.tasks| && t != tid ==> k'.tasks[t] == k.tasks[t]
    requires k'.live - {tid} <= k.live
    ensures forall o :: Owns(k', o) && o.tid != tid ==> Owns(k, o) && BlockOwned(k', o) == BlockOwned(k, o)
  {
  }

  /** The slot tid, not live, has an allocated system-call stack that no live task owns. */
  ghost predicate Ready(k: Kernel, tid: int) {
    && 0 <= tid < |k.tasks| && tid !in k.live
    && Block(k.tasks[tid].stack, STACK_LENGTH) in k.mem.used
    && forall o :: Owns(k, o) ==> BlockOwned(k, o).start != k.tasks[tid].stack
  }

  lemma StackSize()
    ensures Align4KB(STACK_LENGTH) == STACK_LENGTH && 0 < STACK_LENGTH <= 0xFFFF_F000
  {
  }

  lemma StackedKeeps(k: Kernel, end: nat, tid: int)
    requires KernelInv(k, end) && 0 <= tid < |k.tasks| && tid !in k.live
    requires Alloc(k.mem, STACK_LENGTH).1.Some?
    ensures var (mem0, p) := Alloc(k.mem, STACK_LENGTH);
      KernelInv(Stacked(k, tid, mem0, p.value), end) && Ready(Stacked(k, tid, mem0, p.value), tid)
  {
    hide Inv, Aligned, NoEmptyBlock, Alloc, TaskOk;
    StackSize();
    AllocGives(k.mem, end, STACK_LENGTH);
    var (mem0, p) := Alloc(k.mem, STACK_LENGTH);
    var k' := Stacked(k, tid, mem0, p.value);
    OtherOwners(k, k', tid);
    assert k'.mem.used == k.mem.used + [Block(p.value, STACK_LENGTH)];
    assert k'.mem.used[|k.mem.used|] == Block(p.value, STACK_LENGTH);
    assert Ownership(k');
  }

  lemma LaunchSuccess(k: Kernel, end: nat, tid: int, appLen: nat)
    requires KernelInv(k, end) && Ready(k, tid) && appLen <= MAX_APP_LEN && Launch(k, tid, appLen).1 != -1
    ensures KernelInv(Launch(k, tid, appLen).0, end)
  {
    hide Inv, Aligned, NoEmptyBlock, Alloc, TaskTable;
    var k' := Launch(k, tid, appLen).0;
    ImageSize(k.tasks[tid].(appLen := appLen));
    PageTableSize();
    var (mem1, a) := Alloc(k.mem, ImageLength(appLen));
    AllocGives(k.mem, end, ImageLength(appLen));
    AllocGives(mem1, end, PAGEDT_LENGTH);
    var task' := k'.tasks[tid];
    GoodEnd(k.mem, end);
    NewTaskOk(task');
    LaunchedOwnership(k, k', tid, Block(task'.addr, Align4KB(ImageLength(appLen))), Block(task'.pagedt, PAGEDT_LENGTH));
  }

  lemma LaunchedOwnership(k: Kernel, k': Kernel, tid: int, b: Block, c: Block)
    requires ShapeOk(k) && ShapeOk(k') && Ownership(k) && Ready(k, tid)
    requires k'.live == k.live + {tid} && k'.tasks == k.tasks[tid := k'.tasks[tid]]
    requires var task' := k'.tasks[tid];
      && task'.appLen <= MAX_APP_LEN && task'.stack == k.tasks[tid].stack && task'.blocks == NoBlocks()
      && b == Block(task'.addr, Align4KB(ImageLength(task'.appLen)))
      && c == Block(task'.pagedt, PAGEDT_LENGTH)
    requires k'.mem.used == k.mem.used + [b] + [c] && b.start != c.start
    requires forall d :: d in k.mem.used ==> d.start != b.start && d.start != c.start
    ensures Ownership(k')
  {
    OtherOwners(k, k', tid);
    var e := Block(k.tasks[tid].stack, STACK_LENGTH);
    forall o | Owns(k', o)
      ensures o.tid == tid ==>
        !o.Dynamic? && BlockOwned(k', o) == (if o.Image? then b else if o.PageTable? then c else e)
      ensures BlockOwned(k', o) in k'.mem.used
    {
    }
  }

  lemma GoodEnd(s: Mem, end: nat)
    requires Inv(s, end)
    ensures end <= WORD
  {
  }

  /** The lists can follow a creation: one that finds no room for its page tables frees its image
      again. */
  predicate CreateFollowed(k: Kernel, appLen: nat) {
    appLen <= MAX_APP_LEN && FreeSlot(k.tasks, 0) != -1 && Alloc(k.mem, STACK_LENGTH).1.Some? ==>
      LaunchFollowed(Alloc(k.mem, STACK_LENGTH).0, appLen)
  }

  predicate LaunchFollowed(s: Mem, appLen: nat)
    requires appLen <= MAX_APP_LEN
  {
    var (mem1, a) := Alloc(s, ImageLength(appLen));
    a.Some? && Alloc(mem1, PAGEDT_LENGTH).1.None? ==> Followed(mem1, a.value)
  }

  /** Creation keeps isolation, and the lists can follow it unless the image takes the last free
      block, so that the page tables find none. */
  lemma CreateKeeps(k: Kernel, end: nat, appLen: nat)
    requires KernelInv(k, end)
    ensures KernelInv(Create(k, appLen).0, end)
    ensures CreateFollowed(k, appLen)
       <==> !(appLen <= MAX_APP_LEN && FreeSlot(k.tasks, 0) != -1
              && var (mem0, p) := Alloc(k.mem, STACK_LENGTH);
                 var (mem1, a) := Alloc(mem0, ImageLength(appLen));
                 p.Some? && a.Some? && mem1.free == [])
  {
    var tid := FreeSlot(k.tasks, 0);
    if appLen <= MAX_APP_LEN && tid != -1 && Alloc(k.mem, STACK_LENGTH).1.Some? {
      hide Launch, KernelInv, Ready, LaunchFollowed, Alloc;
      var (mem0, p) := Alloc(k.mem, STACK_LENGTH);
      var k' := Stacked(k, tid, mem0, p.value);
      FreeNotLive(k, end);
      StackedKeeps(k, end, tid);
      LaunchKeeps(k', end, tid, appLen);
      LaunchFollowedIff(k', end, tid, appLen);
    }
  }

  lemma FreeNotLive(k: Kernel, end: nat)
    requires KernelInv(k, end)
    ensures FreeSlot(k.tasks, 0) !in k.live
  {
    hide Inv, Aligned, NoEmptyBlock, Ownership, PageOk, DirectoryOk;
    assert forall t :: t in k.live ==> k.tasks[t].used;
  }

  lemma LaunchKeeps(k: Kernel, end: nat, tid: int, appLen: nat)
    requires KernelInv(k, end) && Ready(k, tid) && appLen <= MAX_APP_LEN
    ensures KernelInv(Launch(k, tid, appLen).0, end)
  {
    if Launch(k, tid, appLen).1 != -1 {
      LaunchSuccess(k, end, tid, appLen);
    } else {
      LaunchFailure(k, end, tid, appLen);
    }
  }

  lemma LaunchFollowedIff(k: Kernel, end: nat, tid: int, appLen: nat)
    requires KernelInv(k, end) && Ready(k, tid) && appLen <= MAX_APP_LEN
    ensures LaunchFollowed(k.mem, appLen)
       <==> !(var (mem1, a) := Alloc(k.mem, ImageLength(appLen)); a.Some? && mem1.free == [])
  {
    hide Inv, Aligned, NoEmptyBlock, Alloc, Ownership, TaskOk;
    ImageSize(NoTask().(appLen := appLen));
    AllocGives(k.mem, end, ImageLength(appLen));
    var (mem1, a) := Alloc(k.mem, ImageLength(appLen));
    if a.Some? && mem1.free == [] {
      NoBlockNoAlloc(mem1, PAGEDT_LENGTH);
      FreeFinds(mem1, a.value, |k.mem.used|);
    }
  }

  lemma NoBlockNoAlloc(s: Mem, length: u32)
    ensures s.free == [] ==> Alloc(s, length).1 == None
  {
  }

  function NoTask(): Task {
    Task(false, true, 0, 0, 0, 0, [], [], [])
  }

  lemma LaunchFailure(k: Kernel, end: nat, tid: int, appLen: nat)
    requires KernelInv(k, end) && 0 <= tid < |k.tasks| && tid !in k.live && appLen <= MAX_APP_LEN
    requires Launch(k, tid, appLen).1 == -1
    ensures KernelInv(Launch(k, tid, appLen).0, end)
  {
    hide Inv, Aligned, NoEmptyBlock, Alloc, Free;
    var k' := Launch(k, tid, appLen).0;
    ImageSize(k.tasks[tid].(appLen := appLen));
    var (mem1, a) := Alloc(k.mem, ImageLength(appLen));
    AllocGives(k.mem, end, ImageLength(appLen));
    if a.Some? {
      FreeKeeps(mem1, end, a.value);
    }
    OtherOwners(k, k', tid);
    assert forall b :: b in k.mem.used ==> b in k'.mem.used;
    assert Ownership(k');
  }

  // ------------------------------------------------------------------ killing

  /** Killing a task whose creation had returned its id keeps isolation, and the lists can follow
      exactly if there is a free block: at least its image and its page tables are used. */
  lemma KillKeeps(k: Kernel, end: nat, tid: int)
    requires KernelInv(k, end) && tid in k.live
    ensures KernelInv(Kill(k, tid), end)
    ensures FollowedEach(k.mem, KillList(k, tid)) <==> k.mem.free != []
  {
    hide Inv, Aligned, NoEmptyBlock, FreeEach, FollowedEach;
    LiveNotStray(k, end, tid);
    KillHarmless(k, end, tid);
    LiveFollowed(k, end, tid);
  }

  lemma LiveFollowed(k: Kernel, end: nat, tid: int)
    requires KernelInv(k, end) && tid in k.live
    ensures FollowedEach(k.mem, KillList(k, tid)) <==> k.mem.free != []
  {
    hide Inv, Aligned, NoEmptyBlock, FreeEach, FollowedEach;
    var ps := KillList(k, tid);
    TwoUsedBlocks(k, end, tid);
    FollowedEachIff(k.mem, ps);
    assert Owns(k, Image(tid)) && BlockOwned(k, Image(tid)) in k.mem.used;
    assert ps[0] == BlockOwned(k, Image(tid)).start;
    UsedBlockShape(k.mem, end, BlockOwned(k, Image(tid)));
  }

  /** A live task has at least two used blocks. */
  lemma TwoUsedBlocks(k: Kernel, end: nat, tid: int)
    requires KernelInv(k, end) && tid in k.live
    ensures |k.mem.used| >= 2
  {
    hide Inv, Aligned, NoEmptyBlock;
    assert TaskOk(k.tasks[tid]);
    var b, c := BlockOwned(k, Image(tid)), BlockOwned(k, PageTable(tid));
    assert Owns(k, Image(tid)) && Owns(k, PageTable(tid)) && Image(tid) != PageTable(tid);
    assert b in k.mem.used && c in k.mem.used && b.start != c.start;
    var i :| 0 <= i < |k.mem.used| && k.mem.used[i] == b;
    var j :| 0 <= j < |k.mem.used| && k.mem.used[j] == c;
    assert i != j;
  }

  /** The lists can follow each free of a list of addresses. */
  predicate FollowedEach(s: Mem, ps: seq<u32>)
    decreases |ps|
  {
    ps != [] ==>
      if ps[0] == 0 then FollowedEach(s, ps[1..])
      else Followed(s, ps[0]) && FollowedEach(Free(s, ps[0]).0, ps[1..])
  }

  lemma FreeStaysFree(s: Mem, p: u32)
    ensures s.free != [] ==> Free(s, p).0.free != []
    ensures Free(s, p).1 ==> Free(s, p).0.free != []
    ensures !Free(s, p).1 ==> Free(s, p).0 == s
  {
  }

  /** The lists can follow them all exactly if there is a free block, or only one used one, or none
      of the addresses starts a used block. */
  lemma {:induction false} FollowedEachIff(s: Mem, ps: seq<u32>)
    ensures FollowedEach(s, ps)
       <==> s.free != [] || |s.used| == 1
            || forall i :: 0 <= i < |ps| && ps[i] != 0 ==> !Free(s, ps[i]).1
    decreases |ps|
  {
    hide Free;
    if ps != [] {
      var rest := ps[1..];
      assert forall i :: 0 < i < |ps| ==> ps[i] == rest[i - 1];
      assert forall i :: 0 <= i < |rest| ==> rest[i] == ps[i + 1];
      if ps[0] == 0 {
        FollowedEachIff(s, rest);
      } else {
        FreeStaysFree(s, ps[0]);
        FollowedEachIff(Free(s, ps[0]).0, rest);
      }
    }
  }

  /** No block of another owner is among what killing tid frees. */
  lemma OthersUntouched(k: Kernel, tid: int, o: Owner)
    requires Ownership(k) && ShapeOk(k) && tid in k.live && k.tasks[tid].appLen <= MAX_APP_LEN && Owns(k, o) && o.tid != tid
    ensures BlockOwned(k, o) in k.mem.used
    ensures BlockOwned(k, o).start !in KillList(k, tid) || BlockOwned(k, o).start == 0
  {
    var task := k.tasks[tid];
    var p := BlockOwned(k, o).start;
    assert Owns(k, Image(tid)) && Owns(k, PageTable(tid)) && Owns(k, Stack(tid));
    assert BlockOwned(k, Image(tid)).start == task.addr && BlockOwned(k, PageTable(tid)).start == task.pagedt;
    assert BlockOwned(k, Stack(tid)).start == task.stack;
    forall i | 0 <= i < |task.blocks| && task.blocks[i] != 0
      ensures task.blocks[i] != p
    {
      assert Owns(k, Dynamic(tid, i)) && BlockOwned(k, Dynamic(tid, i)).start == task.blocks[i];
    }
  }

  lemma {:induction false} FreeEachShrinks(s: Mem, ps: seq<u32>)
    ensures forall b :: b in FreeEach(s, ps).used ==> b in s.used
    decreases |ps|
  {
    if ps != [] {
      FreeEachShrinks(if ps[0] == 0 then s else Free(s, ps[0]).0, ps[1..]);
    }
  }

  lemma FreeGrowsByOne(s: Mem, p: u32)
    ensures |Free(s, p).0.free| <= |s.free| + 1
  {
  }

  lemma FreeRemoves(s: Mem, end: nat, b: Block)
    requires GoodMem(s, end) && b in s.used && |s.free| < MBD_COUNT
    ensures b !in Free(s, b.start).0.used
  {
    var i := FirstAt(s.used, 0, b.start);
    var used' := Free(s, b.start).0.used;
    if b in used' {
      var j :| 0 <= j < |used'| && used'[j] == b;
      var j' := if j < i then j else j + 1;
      assert s.used[j'] == b;
      UsedStartsUnique(s, end, i, j');
    }
  }

  lemma {:induction false} FreeEachRemoves(s: Mem, end: nat, ps: seq<u32>, b: Block)
    requires GoodMem(s, end) && b in s.used && b.start in ps && b.start != 0 && |s.free| + |ps| <= MBD_COUNT
    ensures b !in FreeEach(s, ps).used
    decreases |ps|
  {
    var s' := if ps[0] == 0 then s else Free(s, ps[0]).0;
    FreeKeeps(s, end, ps[0]);
    FreeGrowsByOne(s, ps[0]);
    if ps[0] == b.start {
      FreeRemoves(s, end, b);
      FreeEachShrinks(s', ps[1..]);
    } else {
      FreeEachRemoves(s', end, ps[1..], b);
    }
  }

  /** Some address that slot tid records is by now a block of another live task.  A slot that was
      killed, or whose creation failed, keeps addresses it no longer owns. */
  ghost predicate Stray(k: Kernel, tid: int) {
    0 <= tid < |k.tasks| &&
    exists o :: Owns(k, o) && o.tid != tid && BlockOwned(k, o).start in KillList(k, tid)
  }

  lemma LiveNotStray(k: Kernel, end: nat, tid: int)
    requires KernelInv(k, end) && tid in k.live
    ensures !Stray(k, tid)
  {
    hide Inv, Aligned, NoEmptyBlock;
    assert TaskOk(k.tasks[tid]);
    forall o | Owns(k, o) && o.tid != tid
      ensures BlockOwned(k, o).start !in KillList(k, tid)
    {
      OthersUntouched(k, tid, o);
      UsedBlockShape(k.mem, end, BlockOwned(k, o));
    }
  }

  /** Ending a kill on any slot, used or not, keeps isolation exactly when it does not stray. */
  lemma KillKeepsIff(k: Kernel, end: nat, tid: int)
    requires KernelInv(k, end) && 0 <= tid < |k.tasks|
    requires |k.mem.free| + MAX_TASK_MEMORY_BLOCK_COUNT + 3 <= MBD_COUNT
    ensures KernelInv(Kill(k, tid), end) <==> !Stray(k, tid)
  {
    hide KernelInv, KillList;
    if Stray(k, tid) {
      var o :| Owns(k, o) && o.tid != tid && BlockOwned(k, o).start in KillList(k, tid);
      KillHarms(k, end, tid, o);
    } else {
      KillHarmless(k, end, tid);
    }
  }

  lemma KillHarms(k: Kernel, end: nat, tid: int, o: Owner)
    requires KernelInv(k, end) && 0 <= tid < |k.tasks|
    requires |k.mem.free| + MAX_TASK_MEMORY_BLOCK_COUNT + 3 <= MBD_COUNT
    requires Owns(k, o) && o.tid != tid && BlockOwned(k, o).start in KillList(k, tid)
    ensures !KernelInv(Kill(k, tid), end)
  {
    hide Inv, Aligned, NoEmptyBlock, FreeEach, TaskOk;
    var k', b := Kill(k, tid), BlockOwned(k, o);
    UsedBlockShape(k.mem, end, b);
    FreeEachRemoves(k.mem, end, KillList(k, tid), b);
    assert Owns(k', o) && BlockOwned(k', o) == b;
    assert !Ownership(k');
  }

  lemma KillHarmless(k: Kernel, end: nat, tid: int)
    requires KernelInv(k, end) && 0 <= tid < |k.tasks| && !Stray(k, tid)
    ensures KernelInv(Kill(k, tid), end)
  {
    hide Inv, Aligned, NoEmptyBlock, FreeEach, TaskOk;
    FreeEachKeeps(k.mem, end, KillList(k, tid));
    OtherOwners(k, Kill(k, tid), tid);
    assert Ownership(Kill(k, tid));
  }

  // --------------------------------------------------- a task's memory calls

  lemma FindPagesFree(task: Task, size: u32)
    requires TaskOk(task) && size > 0 && FindPages(task.table, size).Some?
    ensures var start := FindPages(task.table, size).value;
            && start % PAGE_SIZE == 0
            && IMAGE_PAGE + ImagePages(task) <= start / PAGE_SIZE
            && FreeRun(task.table, start / PAGE_SIZE, PagesOf(size))
            && 0 < PagesOf(size) < PAGE_COUNT && Align4KB(size) == PagesOf(size) * PAGE_SIZE && size <= 0xFFFF_F000
  {
    hide DirectoryOk;
    assert PageOk(task, 0);
    PagesOfRoundsUp(size);
    var q := FindRun(task.table, 0, PagesOf(size)).value;
    assert !Present(PageEntry(task.table, q));
    assert PageOk(task, q);
    assert q > 0;
    SizeRounds(size);
  }

  lemma SizeRounds(size: u32)
    requires 0 < PagesOf(size) < PAGE_COUNT
    ensures Align4KB(size) == PagesOf(size) * PAGE_SIZE && 0 < size <= 0xFFFF_F000
  {
  }

  /** The task after block p was mapped into pages that were absent. */
  lemma GrownTaskOk(task: Task, ui: nat, start: u32, size: u32, p: u32)
    requires TaskOk(task) && ui < |task.blocks| && task.blocks[ui] == 0
    requires start % PAGE_SIZE == 0 && p % PAGE_SIZE == 0 && p != 0
    requires IMAGE_PAGE + ImagePages(task) <= start / PAGE_SIZE && FreeRun(task.table, start / PAGE_SIZE, PagesOf(size))
    requires 0 < PagesOf(size) && p + PagesOf(size) * PAGE_SIZE <= WORD
    ensures TaskOk(Grown(task, ui, start, size, p))
  {
    var task' := Grown(task, ui, start, size, p);
    assert ImagePages(task') == ImagePages(task);
    forall d | 0 <= d < TABLE_ITEM_COUNT
      ensures task'.table[d] == task.table[d]
    {
      DirectoryKept(task.table, start, size, p, RW_RWE, d);
    }
    hide Mapped, PagesOf, EmptyTable;
    forall q | 0 <= q < PAGE_COUNT
      ensures PageOk(task', q)
    {
      GrownPageOk(task, ui, start, size, p, q);
    }
  }

  lemma GrownPageOk(task: Task, ui: nat, start: u32, size: u32, p: u32, q: nat)
    requires TaskOk(task) && ui < |task.blocks| && task.blocks[ui] == 0 && q < PAGE_COUNT
    requires start % PAGE_SIZE == 0 && p % PAGE_SIZE == 0 && p != 0
    requires IMAGE_PAGE + ImagePages(task) <= start / PAGE_SIZE && FreeRun(task.table, start / PAGE_SIZE, PagesOf(size))
    requires 0 < PagesOf(size) && p + PagesOf(size) * PAGE_SIZE <= WORD
    ensures PageOk(Grown(task, ui, start, size, p), q)
  {
    var task' := Grown(task, ui, start, size, p);
    assert ImagePages(task') == ImagePages(task);
    assert PageOk(task, q);
    MappedPage(task.table, start, size, p, RW_RWE, q);
    hide Mapped, PagesOf;
    assert forall i :: 0 <= i < |task.blocks| && i != ui ==> (InSpan(task', i, q) <==> InSpan(task, i, q));
    if start / PAGE_SIZE <= q < start / PAGE_SIZE + PagesOf(size) {
      assert !Present(PageEntry(task.table, q));
      assert InSpan(task', ui, q);
    } else {
      assert !InSpan(task', ui, q);
    }
  }

  lemma GrownKeeps(k: Kernel, end: nat, tid: int, size: u32, ui: nat, start: u32)
    requires KernelInv(k, end) && tid in k.live && size > 0 && ui < |k.tasks[tid].blocks| && k.tasks[tid].blocks[ui] == 0
    requires FindPages(k.tasks[tid].table, size) == Some(start) && Alloc(k.mem, size).1.Some?
    ensures var (mem', p) := Alloc(k.mem, size);
            KernelInv(k.(mem := mem', tasks := k.tasks[tid := Grown(k.tasks[tid], ui, start, size, p.value)]), end)
  {
    hide Inv, Aligned, NoEmptyBlock, Alloc, FindPages, Mapped, PageOk, InSpan, Ownership, PagesOf, Align4KB;
    var task := k.tasks[tid];
    FindPagesFree(task, size);
    AllocGives(k.mem, end, size);
    GoodEnd(k.mem, end);
    var (mem', p) := Alloc(k.mem, size);
    var k' := k.(mem := mem', tasks := k.tasks[tid := Grown(task, ui, start, size, p.value)]);
    GrownTaskOk(task, ui, start, size, p.value);
    hide TaskOk;
    GrownOwnership(k, k', tid, ui, Block(p.value, Align4KB(size)));
    ReplaceTask(k, k', end, tid);
  }

  /** A request of at least one byte keeps isolation. */
  lemma AllocMemoryKeeps(k: Kernel, end: nat, tid: int, size: u32)
    requires KernelInv(k, end) && (UsedTask(k, tid) ==> tid in k.live) && size > 0
    ensures KernelInv(AllocMemory(k, tid, size).0, end)
  {
    hide KernelInv, Alloc, FindPages;
    assert ShapeOk(k) by {
      LiveShape(k, end);
    }
    if AllocMemory(k, tid, size).0 != k {
      var task := k.tasks[tid];
      GrownKeeps(k, end, tid, size, FreeBlockSlot(task.blocks, 0), FindPages(task.table, size).value);
    }
  }

  lemma LiveShape(k: Kernel, end: nat)
    requires KernelInv(k, end)
    ensures ShapeOk(k)
  {
  }

  /** Only the memory and task tid changed, and both are sound. */
  lemma ReplaceTask(k: Kernel, k': Kernel, end: nat, tid: int)
    requires KernelInv(k, end) && tid in k.live && k'.live == k.live && |k'.tasks| == |k.tasks|
    requires k'.tasks == k.tasks[tid := k'.tasks[tid]]
    requires GoodMem(k'.mem, end) && ShapeOk(k') && TaskOk(k'.tasks[tid]) && Ownership(k')
    ensures KernelInv(k', end)
  {
    hide Inv, Aligned, NoEmptyBlock, TaskOk, Ownership;
  }

  /** A request keeps isolation exactly if it asks for a byte or more, or cannot succeed: the slot is
      not used, it has no free place for a pointer, no descriptor is left, or no block is free.  A
      request of no bytes that succeeds leaves an empty block behind. */
  lemma AllocMemoryKeepsIff(k: Kernel, end: nat, tid: int, size: u32)
    requires KernelInv(k, end) && (UsedTask(k, tid) ==> tid in k.live)
    ensures KernelInv(AllocMemory(k, tid, size).0, end)
       <==> size > 0 || !UsedTask(k, tid)
            || FreeBlockSlot(k.tasks[tid].blocks, 0) == |k.tasks[tid].blocks|
            || |k.mem.used| == MBD_COUNT || k.mem.free == []
  {
    if size > 0 {
      AllocMemoryKeeps(k, end, tid, size);
    } else if UsedTask(k, tid) {
      ZeroRequest(k, end, tid);
    }
  }

  lemma ZeroRequest(k: Kernel, end: nat, tid: int)
    requires KernelInv(k, end) && UsedTask(k, tid) && tid in k.live
    ensures KernelInv(AllocMemory(k, tid, 0).0, end)
       <==> FreeBlockSlot(k.tasks[tid].blocks, 0) == |k.tasks[tid].blocks|
            || |k.mem.used| == MBD_COUNT || k.mem.free == []
  {
    hide Inv, Aligned, Ownership, PageOk, AllocWithStart, NoEmptyBlock, LeavesNoEmpty, DirectoryOk;
    var task := k.tasks[tid];
    assert TaskOk(task) && PageOk(task, 0);
    SomePagePresent(task);
    assert FindPages(task.table, 0) == Some(0);
    AllocEmptyIff(k.mem, ALLOC_START, 0);
    MemAllocEmptyIff(k.mem, end, 0);
    AllocNothing(k.mem);
    var k' := AllocMemory(k, tid, 0).0;
    if FreeBlockSlot(task.blocks, 0) < |task.blocks| && Alloc(k.mem, 0).1.Some? {
      assert k'.mem == Alloc(k.mem, 0).0;
    } else {
      assert k' == k;
    }
  }

  lemma AllocNothing(s: Mem)
    ensures |s.used| >= MBD_COUNT || s.free == [] ==> Alloc(s, 0).1 == None
    ensures Alloc(s, 0).1.None? ==> Alloc(s, 0).0 == s
  {
  }

  lemma SomePagePresent(task: Task)
    requires IsTable(task.table) && task.appLen <= MAX_APP_LEN && PageOk(task, 0)
    ensures Present(PageEntry(task.table, 0))
  {
  }

  lemma GrownOwnership(k: Kernel, k': Kernel, tid: int, ui: nat, b: Block)
    requires ShapeOk(k) && ShapeOk(k') && Ownership(k) && tid in k.live && k'.live == k.live
    requires ui < |k.tasks[tid].blocks| && k.tasks[tid].blocks[ui] == 0
    requires k'.mem.used == k.mem.used + [b] && forall c :: c in k.mem.used ==> c.start != b.start
    requires k'.tasks == k.tasks[tid := k'.tasks[tid]]
    requires var task, task' := k.tasks[tid], k'.tasks[tid];
             && task'.appLen == task.appLen && task'.addr == task.addr && task'.pagedt == task.pagedt
             && task'.stack == task.stack
             && task'.blocks == task.blocks[ui := b.start]
             && task'.spans == task.spans[ui := task'.spans[ui]]
             && b.length == Wrap(task'.spans[ui].pages * PAGE_SIZE)
    ensures Ownership(k')
  {
    forall o | Owns(k', o)
      ensures if o == Dynamic(tid, ui) then BlockOwned(k', o) == b else Owns(k, o) && BlockOwned(k', o) == BlockOwned(k, o)
    {
    }
  }

  /** The address was handed to the task for a block it still has. */
  ghost predicate BlockAddress(k: Kernel, tid: int, address: u32) {
    && UsedTask(k, tid)
    && |k.tasks[tid].blocks| == |k.tasks[tid].spans|
    && exists i :: 0 <= i < |k.tasks[tid].blocks| && k.tasks[tid].blocks[i] != 0
                   && address == k.tasks[tid].spans[i].first * PAGE_SIZE
  }

  lemma FreedPage(t: seq<u32>, address: u32, length: u32, q: nat)
    requires IsTable(t) && q < PAGE_COUNT
    ensures var e := PageEntry(Freed(t, address, length), q);
            if address / PAGE_SIZE <= q < address / PAGE_SIZE + PagesOf(length) then !Present(e) else e == PageEntry(t, q)
  {
    TableItemFields(0, US_USER, RW_RWE, P_INVALID);
  }

  lemma TranslateSpan(task: Task, i: nat, address: u32)
    requires TaskOk(task) && i < |task.blocks| && task.blocks[i] != 0 && address == task.spans[i].first * PAGE_SIZE
    ensures Translate(task.table, address) == task.blocks[i]
  {
    var q := task.spans[i].first;
    assert PageOk(task, q) && InSpan(task, i, q);
  }

  lemma ShrunkTaskOk(k: Kernel, end: nat, tid: int, i: nat, length: u32)
    requires KernelInv(k, end) && tid in k.live && i < |k.tasks[tid].blocks| && k.tasks[tid].blocks[i] != 0
    requires PagesOf(length) == k.tasks[tid].spans[i].pages
    requires forall j :: 0 <= j < |k.tasks[tid].blocks| && j != i && k.tasks[tid].blocks[j] != 0 ==>
                           k.tasks[tid].blocks[j] != k.tasks[tid].blocks[i]
    ensures k.tasks[tid].spans[i].first * PAGE_SIZE < WORD
    ensures var task := k.tasks[tid];
            TaskOk(task.(table := Freed(task.table, task.spans[i].first * PAGE_SIZE, length),
                         blocks := Forget(task.blocks, task.blocks[i])))
  {
    var task := k.tasks[tid];
    assert TaskOk(task);
    var address := task.spans[i].first * PAGE_SIZE;
    var task' := task.(table := Freed(task.table, address, length), blocks := Forget(task.blocks, task.blocks[i]));
    assert ImagePages(task') == ImagePages(task);
    forall q | 0 <= q < PAGE_COUNT
      ensures PageOk(task', q)
    {
      ShrunkPageOk(k, end, tid, i, length, q);
    }
  }

  lemma ShrunkPageOk(k: Kernel, end: nat, tid: int, i: nat, length: u32, q: nat)
    requires KernelInv(k, end) && tid in k.live && i < |k.tasks[tid].blocks| && k.tasks[tid].blocks[i] != 0
    requires TaskOk(k.tasks[tid]) && q < PAGE_COUNT && PagesOf(length) == k.tasks[tid].spans[i].pages
    requires forall j :: 0 <= j < |k.tasks[tid].blocks| && j != i && k.tasks[tid].blocks[j] != 0 ==>
                           k.tasks[tid].blocks[j] != k.tasks[tid].blocks[i]
    ensures k.tasks[tid].spans[i].first * PAGE_SIZE < WORD
    ensures var task := k.tasks[tid];
            PageOk(task.(table := Freed(task.table, task.spans[i].first * PAGE_SIZE, length),
                         blocks := Forget(task.blocks, task.blocks[i])), q)
  {
    assert 0 <= tid < |k.tasks|;
    hide KernelInv, PagesOf;
    var task := k.tasks[tid];
    var address := task.spans[i].first * PAGE_SIZE;
    var task' := task.(table := Freed(task.table, address, length), blocks := Forget(task.blocks, task.blocks[i]));
    assert ImagePages(task') == ImagePages(task);
    assert PageOk(task, q);
    FreedPage(task.table, address, length, q);
    hide Freed;
    forall j | 0 <= j < |task.blocks|
      ensures InSpan(task', j, q) <==> InSpan(task, j, q) && j != i
    {
    }
    if InSpan(task, i, q) {
      forall j | 0 <= j < |task.blocks| && j != i
        ensures !InSpan(task, j, q)
      {
        if InSpan(task, j, q) {
          SpansDisjoint(k, end, tid, i, j, q);
        }
      }
      assert !Present(PageEntry(task'.table, q));
    } else {
      assert PageEntry(task'.table, q) == PageEntry(task.table, q);
    }
  }

  lemma FreeUnused(k: Kernel, tid: int, address: u32)
    requires !UsedTask(k, tid)
    ensures FreeMemory(k, tid, address) == k
  {
  }

  lemma BlockFreed(k: Kernel, end: nat, tid: int, address: u32)
    requires KernelInv(k, end) && tid in k.live && BlockAddress(k, tid, address)
    ensures KernelInv(FreeMemory(k, tid, address), end)
  {
    hide Inv, Aligned, NoEmptyBlock, Translate;
    var k' := FreeMemory(k, tid, address);
    if k' != k {
      var task := k.tasks[tid];
      assert TaskOk(task);
      var i :| 0 <= i < |task.blocks| && task.blocks[i] != 0 && address == task.spans[i].first * PAGE_SIZE;
      TranslateSpan(task, i, address);
      SpanFreed(k, end, tid, i);
    }
  }

  lemma SpanFreed(k: Kernel, end: nat, tid: int, i: nat)
    requires KernelInv(k, end) && tid in k.live && UsedTask(k, tid)
    requires i < |k.tasks[tid].blocks| == |k.tasks[tid].spans| && k.tasks[tid].blocks[i] != 0
    requires IsTable(k.tasks[tid].table) && k.tasks[tid].spans[i].first * PAGE_SIZE < WORD
    requires Translate(k.tasks[tid].table, k.tasks[tid].spans[i].first * PAGE_SIZE) == k.tasks[tid].blocks[i]
    ensures KernelInv(FreeMemory(k, tid, k.tasks[tid].spans[i].first * PAGE_SIZE), end)
  {
    hide Inv, Aligned, NoEmptyBlock, Translate, Freed, Forget, Free, BlockSize;
    var task, o := k.tasks[tid], Dynamic(tid, i);
    var k' := FreeMemory(k, tid, task.spans[i].first * PAGE_SIZE);
    assert TaskOk(task) && Owns(k, o);
    var b := BlockOwned(k, o);
    assert b in k.mem.used;
    BlockSizeOf(k.mem, end, b);
    SpanSize(task, i);
    OwnStartsDiffer(k, tid, i);
    ShrunkTaskOk(k, end, tid, i, b.length);
    FreeKeeps(k.mem, end, b.start);
    ShrunkOwnership(k, k', tid, i);
  }

  /** The lists can follow a free by a task. */
  predicate MemoryFollowed(k: Kernel, tid: int, address: u32) {
    UsedTask(k, tid) && |k.tasks[tid].table| == CR3_LENGTH
      && Translate(k.tasks[tid].table, address) != 0 ==>
      Followed(k.mem, Translate(k.tasks[tid].table, address))
  }

  /** The lists can follow a free by the system call. */
  predicate UserFollowed(k: Kernel, tid: int, address: u32) {
    UsedTask(k, tid) && |k.tasks[tid].table| == CR3_LENGTH && address != 0 &&
    (var p := Translate(k.tasks[tid].table, address);
     && p != 0 && p in k.tasks[tid].blocks && BlockSize(k.mem, p) != 0
     && address / PAGE_SIZE + PagesOf(BlockSize(k.mem, p)) <= PAGE_COUNT) ==>
      Followed(k.mem, Translate(k.tasks[tid].table, address))
  }

  /** The lists can follow a free by a live task, at any address, exactly if a block is free or the
      address translates to the start of no used block. */
  lemma FreeFollowedIff(k: Kernel, end: nat, tid: int, address: u32)
    requires KernelInv(k, end) && tid in k.live && UsedTask(k, tid) && IsTable(k.tasks[tid].table)
    ensures var p := Translate(k.tasks[tid].table, address);
      MemoryFollowed(k, tid, address) <==> k.mem.free != [] || p == 0 || BlockSize(k.mem, p) == 0
  {
    hide Inv, Aligned, Translate;
    var p := Translate(k.tasks[tid].table, address);
    TwoUsedBlocks(k, end, tid);
    if BlockSize(k.mem, p) == 0 {
      NoBlockNoFree(k.mem, p);
    } else if k.mem.free == [] {
      var i := FirstAt(k.mem.used, 0, p);
      FreeFinds(k.mem, p, i);
    }
  }

  lemma SpanSize(task: Task, i: nat)
    requires TaskOk(task) && i < |task.blocks| && task.blocks[i] != 0
    ensures PagesOf(Wrap(task.spans[i].pages * PAGE_SIZE)) == task.spans[i].pages
  {
    assert task.spans[i].pages < PAGE_COUNT;
  }

  lemma OwnStartsDiffer(k: Kernel, tid: int, i: nat)
    requires Ownership(k) && Owns(k, Dynamic(tid, i))
    ensures forall j :: 0 <= j < |k.tasks[tid].blocks| && j != i && k.tasks[tid].blocks[j] != 0 ==>
                          k.tasks[tid].blocks[j] != k.tasks[tid].blocks[i]
  {
    var task := k.tasks[tid];
    forall j | 0 <= j < |task.blocks| && j != i && task.blocks[j] != 0
      ensures task.blocks[j] != task.blocks[i]
    {
      assert Owns(k, Dynamic(tid, j)) && Dynamic(tid, j) != Dynamic(tid, i);
      assert BlockOwned(k, Dynamic(tid, j)).start != BlockOwned(k, Dynamic(tid, i)).start;
    }
  }

  lemma ShrunkOwnership(k: Kernel, k': Kernel, tid: int, i: nat)
    requires ShapeOk(k) && ShapeOk(k') && Ownership(k) && Owns(k, Dynamic(tid, i)) && k'.live == k.live
    requires forall b :: b in k.mem.used && b.start != k.tasks[tid].blocks[i] ==> b in k'.mem.used
    requires k'.tasks == k.tasks[tid := k'.tasks[tid]]
    requires var task, task' := k.tasks[tid], k'.tasks[tid];
             && task'.appLen == task.appLen && task'.addr == task.addr && task'.pagedt == task.pagedt
             && task'.stack == task.stack
             && task'.blocks == Forget(task.blocks, task.blocks[i]) && task'.spans == task.spans
    ensures Ownership(k')
  {
    forall o | Owns(k', o)
      ensures Owns(k, o) && BlockOwned(k', o) == BlockOwned(k, o) && o != Dynamic(tid, i)
    {
    }
  }

  /** A page of the image or of a block of the task lies among the `n` pages from `first` on. */
  ghost predicate Touches(task: Task, first: nat, n: nat) {
    task.appLen <= MAX_APP_LEN &&
    exists q :: first <= q < first + n && q < PAGE_COUNT && Mine(task, q)
  }

  ghost predicate Mine(task: Task, q: nat)
    requires task.appLen <= MAX_APP_LEN
  {
    q < IMAGE_PAGE + ImagePages(task) || exists i :: 0 <= i < |task.blocks| && InSpan(task, i, q)
  }

  /** A free does harm: the address was not handed out for a block, but translates, through whatever
      frame its entry names, to the start of a used block, and this is a block of the task, or its
      length in pages from the address on touches the task, or it is freed and some live task
      owns it. */
  ghost predicate FreeHarms(k: Kernel, tid: int, address: u32) {
    UsedTask(k, tid) && IsTable(k.tasks[tid].table) && !BlockAddress(k, tid, address) &&
    var task := k.tasks[tid];
    var p := Translate(task.table, address);
    var size := BlockSize(k.mem, p);
    && p != 0 && size != 0
    && (|| p in task.blocks
        || Touches(task, address / PAGE_SIZE, PagesOf(size))
        || (|k.mem.free| < MBD_COUNT && exists o :: Owns(k, o) && BlockOwned(k, o).start == p))
  }

  /** A free by any address at all keeps isolation exactly if it does no harm. */
  lemma FreeMemoryKeepsIff(k: Kernel, end: nat, tid: int, address: u32)
    requires KernelInv(k, end) && (UsedTask(k, tid) ==> tid in k.live)
    ensures KernelInv(FreeMemory(k, tid, address), end) <==> !FreeHarms(k, tid, address)
  {
    hide KernelInv, FreeMemory, BlockAddress, FreeHarms, Translate;
    LiveShape(k, end);
    if !UsedTask(k, tid) {
      FreeUnused(k, tid, address);
      NoHarm(k, tid, address);
    } else if BlockAddress(k, tid, address) {
      BlockFreed(k, end, tid, address);
      NoHarm(k, tid, address);
    } else {
      var p := Translate(k.tasks[tid].table, address);
      if p == 0 || BlockSize(k.mem, p) == 0 {
        NothingFreed(k, end, tid, address);
        NoHarm(k, tid, address);
      } else {
        OtherFreedIff(k, end, tid, address);
      }
    }
  }

  lemma NoHarm(k: Kernel, tid: int, address: u32)
    ensures !UsedTask(k, tid) || BlockAddress(k, tid, address) ==> !FreeHarms(k, tid, address)
    ensures UsedTask(k, tid) && IsTable(k.tasks[tid].table) &&
            (Translate(k.tasks[tid].table, address) == 0
             || BlockSize(k.mem, Translate(k.tasks[tid].table, address)) == 0) ==>
              !FreeHarms(k, tid, address)
  {
  }

  /** The address translates to no used block: nothing changes. */
  lemma NothingFreed(k: Kernel, end: nat, tid: int, address: u32)
    requires KernelInv(k, end) && tid in k.live && UsedTask(k, tid) && IsTable(k.tasks[tid].table)
    requires var p := Translate(k.tasks[tid].table, address); p == 0 || BlockSize(k.mem, p) == 0
    ensures FreeMemory(k, tid, address) == k
  {
    hide Inv, Aligned, Translate, TaskOk;
    var task, p := k.tasks[tid], Translate(k.tasks[tid].table, address);
    if p != 0 {
      NoBlockNoFree(k.mem, p);
      forall i | 0 <= i < |task.blocks| && task.blocks[i] != 0
        ensures task.blocks[i] != p
      {
        assert TaskOk(task);
        AppLenOk(task);
        assert Owns(k, Dynamic(tid, i)) && BlockOwned(k, Dynamic(tid, i)) in k.mem.used;
        var j :| 0 <= j < |k.mem.used| && k.mem.used[j] == BlockOwned(k, Dynamic(tid, i));
      }
      assert Forget(task.blocks, p) == task.blocks;
      assert Freed(task.table, address, 0) == task.table;
      assert k.tasks[tid := task] == k.tasks;
    }
  }

  lemma AppLenOk(task: Task)
    requires TaskOk(task)
    ensures task.appLen <= MAX_APP_LEN
  {
  }

  lemma NoBlockNoFree(s: Mem, p: u32)
    requires NoEmptyBlock(s) && BlockSize(s, p) == 0
    ensures Free(s, p) == (s, false) && forall j :: 0 <= j < |s.used| ==> s.used[j].start != p
  {
  }

  lemma OtherFreedIff(k: Kernel, end: nat, tid: int, address: u32)
    requires KernelInv(k, end) && tid in k.live && UsedTask(k, tid) && IsTable(k.tasks[tid].table)
    requires !BlockAddress(k, tid, address)
    requires var p := Translate(k.tasks[tid].table, address); p != 0 && BlockSize(k.mem, p) != 0
    ensures KernelInv(FreeMemory(k, tid, address), end) <==> !FreeHarms(k, tid, address)
  {
    hide KernelInv, FreeMemory, BlockAddress, Translate, Touches, BlockSize;
    var task, p := k.tasks[tid], Translate(k.tasks[tid].table, address);
    if p in task.blocks {
      OwnBlockFreed(k, end, tid, address);
    } else if Touches(task, address / PAGE_SIZE, PagesOf(BlockSize(k.mem, p))) {
      TouchedFreed(k, end, tid, address);
    } else if o :| |k.mem.free| < MBD_COUNT && Owns(k, o) && BlockOwned(k, o).start == p {
      OwnedFreed(k, end, tid, address, o);
    } else {
      ForeignFreed(k, end, tid, address);
    }
  }

  /** What a free leaves of the task. */
  function Shrunk(task: Task, address: u32, size: u32, p: u32): Task
    requires IsTable(task.table)
  {
    task.(table := Freed(task.table, address, size), blocks := Forget(task.blocks, p))
  }

  lemma FreedTask(k: Kernel, tid: int, address: u32)
    requires UsedTask(k, tid) && IsTable(k.tasks[tid].table)
    requires Translate(k.tasks[tid].table, address) != 0
    ensures var p := Translate(k.tasks[tid].table, address);
      FreeMemory(k, tid, address) ==
      k.(mem := Free(k.mem, p).0,
         tasks := k.tasks[tid := Shrunk(k.tasks[tid], address, BlockSize(k.mem, p), p)])
  {
  }

  lemma LiveTaskOk(k: Kernel, end: nat, tid: int)
    requires KernelInv(k, end) && tid in k.live
    ensures 0 <= tid < |k.tasks| && TaskOk(k.tasks[tid])
  {
  }

  lemma BrokenTask(k: Kernel, end: nat, tid: int, q: nat)
    requires tid in k.live && 0 <= tid < |k.tasks| && q < PAGE_COUNT
    requires IsTable(k.tasks[tid].table) && k.tasks[tid].appLen <= MAX_APP_LEN && !PageOk(k.tasks[tid], q)
    ensures !KernelInv(k, end)
  {
  }

  /** The task's own block, freed by another address, stays mapped at one end at least. */
  lemma OwnBlockFreed(k: Kernel, end: nat, tid: int, address: u32)
    requires KernelInv(k, end) && tid in k.live && UsedTask(k, tid) && IsTable(k.tasks[tid].table)
    requires !BlockAddress(k, tid, address)
    requires var p := Translate(k.tasks[tid].table, address); p != 0 && p in k.tasks[tid].blocks
    ensures !KernelInv(FreeMemory(k, tid, address), end)
  {
    hide Inv, Aligned, NoEmptyBlock, Translate, Freed, PageOk, DirectoryOk, PagesOf, Free, BlockSize, FreeMemory;
    LiveTaskOk(k, end, tid);
    var task, p := k.tasks[tid], Translate(k.tasks[tid].table, address);
    var i :| 0 <= i < |task.blocks| && task.blocks[i] == p;
    var b := BlockOwned(k, Dynamic(tid, i));
    assert Owns(k, Dynamic(tid, i)) && b in k.mem.used;
    BlockSizeOf(k.mem, end, b);
    SpanSize(task, i);
    var span := task.spans[i];
    FreedTask(k, tid, address);
    var a := address / PAGE_SIZE;
    if a == span.first {
      TranslateOffset(task, i, address);
    }
    var q := if a <= span.first < a + span.pages then span.first + span.pages - 1 else span.first;
    StillMapped(k, end, tid, i, address, b.length, q);
    BrokenTask(FreeMemory(k, tid, address), end, tid, q);
  }

  lemma TranslateOffset(task: Task, i: nat, address: u32)
    requires TaskOk(task) && i < |task.blocks| && task.blocks[i] != 0
    requires address / PAGE_SIZE == task.spans[i].first
    ensures Translate(task.table, address) == task.blocks[i] + address % PAGE_SIZE
  {
    assert PageOk(task, task.spans[i].first) && InSpan(task, i, task.spans[i].first);
  }

  lemma StillMapped(k: Kernel, end: nat, tid: int, i: nat, address: u32, size: u32, q: nat)
    requires KernelInv(k, end) && tid in k.live && 0 <= tid < |k.tasks| && q < PAGE_COUNT
    requires IsTable(k.tasks[tid].table) && k.tasks[tid].appLen <= MAX_APP_LEN
    requires InSpan(k.tasks[tid], i, q)
    requires !(address / PAGE_SIZE <= q < address / PAGE_SIZE + PagesOf(size))
    ensures !PageOk(Shrunk(k.tasks[tid], address, size, k.tasks[tid].blocks[i]), q)
  {
    var task := k.tasks[tid];
    LiveTaskOk(k, end, tid);
    assert PageOk(task, q);
    FreedPage(task.table, address, size, q);
    var task' := Shrunk(task, address, size, task.blocks[i]);
    hide KernelInv, Freed, PagesOf;
    assert IMAGE_PAGE + ImagePages(task') <= q && Present(PageEntry(task'.table, q));
    forall j | 0 <= j < |task'.blocks|
      ensures !InSpan(task', j, q)
    {
      if InSpan(task', j, q) {
        SpansDisjoint(k, end, tid, i, j, q);
      }
    }
  }

  /** Pages of the task became absent. */
  lemma TouchedFreed(k: Kernel, end: nat, tid: int, address: u32)
    requires KernelInv(k, end) && tid in k.live && UsedTask(k, tid) && IsTable(k.tasks[tid].table)
    requires var p := Translate(k.tasks[tid].table, address);
      && p != 0 && p !in k.tasks[tid].blocks
      && Touches(k.tasks[tid], address / PAGE_SIZE, PagesOf(BlockSize(k.mem, p)))
    ensures !KernelInv(FreeMemory(k, tid, address), end)
  {
    hide KernelInv, Translate, Freed, PagesOf, Free, BlockSize, FreeMemory;
    var task, p := k.tasks[tid], Translate(k.tasks[tid].table, address);
    var size := BlockSize(k.mem, p);
    var a := address / PAGE_SIZE;
    var q :| a <= q < a + PagesOf(size) && q < PAGE_COUNT && Mine(task, q);
    FreedTask(k, tid, address);
    FreedPage(task.table, address, size, q);
    var task' := Shrunk(task, address, size, p);
    assert ImagePages(task') == ImagePages(task);
    if q >= IMAGE_PAGE + ImagePages(task) {
      var i :| 0 <= i < |task.blocks| && InSpan(task, i, q);
      assert task.blocks[i] != p && InSpan(task', i, q);
    }
    assert !PageOk(task', q);
    BrokenTask(FreeMemory(k, tid, address), end, tid, q);
  }

  /** A block of a live task is gone. */
  lemma OwnedFreed(k: Kernel, end: nat, tid: int, address: u32, o: Owner)
    requires KernelInv(k, end) && tid in k.live && UsedTask(k, tid) && IsTable(k.tasks[tid].table)
    requires |k.mem.free| < MBD_COUNT && Owns(k, o)
    requires var p := Translate(k.tasks[tid].table, address);
      p != 0 && p !in k.tasks[tid].blocks && BlockOwned(k, o).start == p
    ensures !KernelInv(FreeMemory(k, tid, address), end)
  {
    hide Inv, Aligned, NoEmptyBlock, Translate, Freed, PageOk, DirectoryOk, PagesOf, Free, BlockSize, FreeMemory;
    var task, p, b := k.tasks[tid], Translate(k.tasks[tid].table, address), BlockOwned(k, o);
    assert b in k.mem.used;
    FreeRemoves(k.mem, end, b);
    FreedTask(k, tid, address);
    var k' := FreeMemory(k, tid, address);
    assert Owns(k', o) && BlockOwned(k', o) == b;
    assert !Ownership(k');
  }

  /** A block of no live task is gone, and absent pages stay absent. */
  lemma ForeignFreed(k: Kernel, end: nat, tid: int, address: u32)
    requires KernelInv(k, end) && tid in k.live && UsedTask(k, tid) && IsTable(k.tasks[tid].table)
    requires var p := Translate(k.tasks[tid].table, address);
      && p != 0 && p !in k.tasks[tid].blocks
      && !Touches(k.tasks[tid], address / PAGE_SIZE, PagesOf(BlockSize(k.mem, p)))
      && (|k.mem.free| < MBD_COUNT ==> forall o :: Owns(k, o) ==> BlockOwned(k, o).start != p)
    ensures KernelInv(FreeMemory(k, tid, address), end)
  {
    hide Inv, Aligned, NoEmptyBlock, Translate, Freed, PageOk, DirectoryOk, PagesOf, Free, BlockSize, FreeMemory;
    LiveTaskOk(k, end, tid);
    var task, p := k.tasks[tid], Translate(k.tasks[tid].table, address);
    var size := BlockSize(k.mem, p);
    FreedTask(k, tid, address);
    var k' := FreeMemory(k, tid, address);
    FreeKeeps(k.mem, end, p);
    if |k.mem.free| >= MBD_COUNT {
      FullNoFree(k.mem, p);
    }
    assert Forget(task.blocks, p) == task.blocks;
    UntouchedOk(task, address, size);
    hide TaskOk;
    forall o | Owns(k', o)
      ensures Owns(k, o) && BlockOwned(k', o) == BlockOwned(k, o)
    {
    }
    assert Ownership(k');
    ReplaceTask(k, k', end, tid);
  }

  lemma FullNoFree(s: Mem, p: u32)
    requires |s.free| >= MBD_COUNT
    ensures Free(s, p) == (s, false)
  {
  }

  lemma UntouchedOk(task: Task, address: u32, size: u32)
    requires TaskOk(task) && !Touches(task, address / PAGE_SIZE, PagesOf(size))
    ensures TaskOk(task.(table := Freed(task.table, address, size)))
  {
    var task' := task.(table := Freed(task.table, address, size));
    assert ImagePages(task') == ImagePages(task);
    forall d | 0 <= d < TABLE_ITEM_COUNT
      ensures task'.table[d] == task.table[d]
    {
      DirectoryKept(task.table, address, size, 0, RW_RWE, d);
    }
    hide Freed, PagesOf, EmptyTable;
    forall q | 0 <= q < PAGE_COUNT
      ensures PageOk(task', q)
    {
      assert PageOk(task, q);
      FreedPage(task.table, address, size, q);
      assert forall i :: 0 <= i < |task.blocks| ==> (InSpan(task', i, q) <==> InSpan(task, i, q));
      assert address / PAGE_SIZE <= q < address / PAGE_SIZE + PagesOf(size) ==> !Mine(task, q);
    }
  }

  /** The system call does harm: the address names a block of the task but is not the one that was
      handed out for it, and either its length in pages from there on fits below 4 GB, so that the
      block is freed, or it touches the task. */
  ghost predicate UserFreeHarms(k: Kernel, tid: int, address: u32) {
    UsedTask(k, tid) && IsTable(k.tasks[tid].table) && !BlockAddress(k, tid, address) &&
    var task := k.tasks[tid];
    var p := Translate(task.table, address);
    var n := PagesOf(BlockSize(k.mem, p));
    && address != 0 && p != 0 && p in task.blocks
    && (address / PAGE_SIZE + n <= PAGE_COUNT || Touches(task, address / PAGE_SIZE, n))
  }

  /** The system call keeps isolation, for any address at all, exactly if it does no harm. */
  lemma UserFreeKeepsIff(k: Kernel, end: nat, tid: int, address: u32)
    requires KernelInv(k, end) && (UsedTask(k, tid) ==> tid in k.live)
    ensures KernelInv(UserFree(k, tid, address).0, end) <==> !UserFreeHarms(k, tid, address)
  {
    hide KernelInv, FreeMemory, BlockAddress, Translate, Touches, FreeHarms, BlockSize, Freed, Free, PagesOf;
    LiveShape(k, end);
    if UsedTask(k, tid) && address != 0 {
      var task, p := k.tasks[tid], Translate(k.tasks[tid].table, address);
      if p != 0 && p in task.blocks {
        var ui := PlaceOf(task.blocks, p, 0);
        OwnBlockSize(k, end, tid, ui);
        if address / PAGE_SIZE + PagesOf(BlockSize(k.mem, p)) <= PAGE_COUNT {
          assert task.blocks[ui := 0] == Forget(task.blocks, p);
          FreedTask(k, tid, address);
          FreeMemoryKeepsIff(k, end, tid, address);
          OwnHarm(k, tid, address);
        } else {
          OnlyUnmapped(k, end, tid, address);
        }
      }
    }
  }

  /** The system call answers TRUE exactly when a block went back to the allocator; then it is the one
      the address names, and the task's pointer to it is gone. */
  lemma UserFreeAnswer(k: Kernel, tid: int, address: u32)
    requires UsedTask(k, tid) ==> IsTable(k.tasks[tid].table)
    ensures var (k', ok) := UserFree(k, tid, address);
      && (ok <==> k'.mem != k.mem)
      && (ok ==>
            && UsedTask(k, tid) && |k'.tasks| == |k.tasks|
            && |k'.tasks[tid].blocks| == |k.tasks[tid].blocks|
            && exists i, j ::
                 && 0 <= i < |k.tasks[tid].blocks| && 0 <= j < |k.mem.used|
                 && k.tasks[tid].blocks[i] == Translate(k.tasks[tid].table, address) == k.mem.used[j].start
                 && k'.tasks[tid].blocks == k.tasks[tid].blocks[i := 0]
                 && k'.mem.used == RemoveAt(k.mem.used, j))
  {
    hide Translate, Freed, PagesOf, GiveBack;
    var (k', ok) := UserFree(k, tid, address);
    if UsedTask(k, tid) {
      var p := Translate(k.tasks[tid].table, address);
      if ok {
        var j := FirstAt(k.mem.used, 0, p);
        var i := PlaceOf(k.tasks[tid].blocks, p, 0);
        assert |k'.mem.used| == |k.mem.used| - 1;
        assert k.tasks[tid].blocks[i] == p == k.mem.used[j].start;
      } else {
        assert Free(k.mem, p).1 || Free(k.mem, p).0 == k.mem;
      }
    }
  }

  lemma OwnBlockSize(k: Kernel, end: nat, tid: int, ui: nat)
    requires KernelInv(k, end) && tid in k.live && 0 <= tid < |k.tasks|
    requires ui < |k.tasks[tid].blocks| && k.tasks[tid].blocks[ui] != 0
    ensures BlockSize(k.mem, k.tasks[tid].blocks[ui]) != 0
    ensures forall j :: 0 <= j < |k.tasks[tid].blocks| && j != ui ==>
              k.tasks[tid].blocks[j] != k.tasks[tid].blocks[ui]
  {
    hide Inv, Aligned, NoEmptyBlock, PageOk, DirectoryOk, BlockSize;
    LiveTaskOk(k, end, tid);
    assert Owns(k, Dynamic(tid, ui)) && BlockOwned(k, Dynamic(tid, ui)) in k.mem.used;
    BlockSizeOf(k.mem, end, BlockOwned(k, Dynamic(tid, ui)));
    SpanSize(k.tasks[tid], ui);
    OwnStartsDiffer(k, tid, ui);
  }

  lemma OwnHarm(k: Kernel, tid: int, address: u32)
    requires UsedTask(k, tid) && IsTable(k.tasks[tid].table)
    requires var p := Translate(k.tasks[tid].table, address);
      p != 0 && p in k.tasks[tid].blocks && BlockSize(k.mem, p) != 0
    ensures FreeHarms(k, tid, address) <==> !BlockAddress(k, tid, address)
  {
    hide BlockAddress, Translate, BlockSize;
  }

  lemma OnlyUnmapped(k: Kernel, end: nat, tid: int, address: u32)
    requires KernelInv(k, end) && tid in k.live && UsedTask(k, tid) && IsTable(k.tasks[tid].table)
    requires var p := Translate(k.tasks[tid].table, address);
      && p != 0 && p in k.tasks[tid].blocks
      && address / PAGE_SIZE + PagesOf(BlockSize(k.mem, p)) > PAGE_COUNT
    ensures !BlockAddress(k, tid, address)
    ensures var size := BlockSize(k.mem, Translate(k.tasks[tid].table, address));
      KernelInv(k.(tasks := k.tasks[tid := k.tasks[tid].(table := Freed(k.tasks[tid].table, address, size))]), end)
      <==> !Touches(k.tasks[tid], address / PAGE_SIZE, PagesOf(size))
  {
    hide Inv, Aligned, NoEmptyBlock, Translate, Freed, PageOk, DirectoryOk, PagesOf, BlockSize;
    LiveTaskOk(k, end, tid);
    var task, p := k.tasks[tid], Translate(k.tasks[tid].table, address);
    var size := BlockSize(k.mem, p);
    NotHandedOut(k, end, tid, address);
    var k' := k.(tasks := k.tasks[tid := task.(table := Freed(task.table, address, size))]);
    if Touches(task, address / PAGE_SIZE, PagesOf(size)) {
      UnmappedMine(k', task, end, tid, address, size);
    } else {
      UntouchedOk(task, address, size);
      hide TaskOk;
      forall o | Owns(k', o)
        ensures Owns(k, o) && BlockOwned(k', o) == BlockOwned(k, o)
      {
      }
      assert Ownership(k');
      ReplaceTask(k, k', end, tid);
    }
  }

  /** A block that was handed out ends below 4 GB. */
  lemma NotHandedOut(k: Kernel, end: nat, tid: int, address: u32)
    requires KernelInv(k, end) && tid in k.live && UsedTask(k, tid) && IsTable(k.tasks[tid].table)
    requires address / PAGE_SIZE + PagesOf(BlockSize(k.mem, Translate(k.tasks[tid].table, address))) > PAGE_COUNT
    ensures !BlockAddress(k, tid, address)
  {
    hide Inv, Aligned, NoEmptyBlock, Translate, PageOk, DirectoryOk, PagesOf, BlockSize;
    LiveTaskOk(k, end, tid);
    var task := k.tasks[tid];
    if i :| 0 <= i < |task.blocks| && task.blocks[i] != 0 && address == task.spans[i].first * PAGE_SIZE {
      TranslateSpan(task, i, address);
      var b := BlockOwned(k, Dynamic(tid, i));
      assert Owns(k, Dynamic(tid, i)) && b in k.mem.used;
      BlockSizeOf(k.mem, end, b);
      SpanSize(task, i);
      assert false;
    }
  }

  lemma UnmappedMine(k: Kernel, task: Task, end: nat, tid: int, address: u32, size: u32)
    requires tid in k.live && 0 <= tid < |k.tasks| && IsTable(task.table)
    requires k.tasks[tid] == task.(table := Freed(task.table, address, size))
    requires Touches(task, address / PAGE_SIZE, PagesOf(size))
    ensures !KernelInv(k, end)
  {
    hide Freed, PagesOf, KernelInv;
    var a, task' := address / PAGE_SIZE, k.tasks[tid];
    var q :| a <= q < a + PagesOf(size) && q < PAGE_COUNT && Mine(task, q);
    FreedPage(task.table, address, size, q);
    assert ImagePages(task') == ImagePages(task);
    if q >= IMAGE_PAGE + ImagePages(task) {
      var i :| 0 <= i < |task.blocks| && InSpan(task, i, q);
      assert InSpan(task', i, q);
    }
    assert !PageOk(task', q);
    BrokenTask(k, end, tid, q);
  }

  // ------------------------------------------------------------ whole runs

  datatype Event =
    | CreateTask(appLen: nat)
    | BeginKill(tid: int)
    | EndKill(killer: nat, busy: bool)
    | TaskAlloc(tid: int, size: u32)
    | TaskFree(tid: int, address: u32)
    | SyscallFree(tid: int, address: u32)
    | SetAllocable(tid: int, value: bool)
    | KernelAlloc(size: u32)
    | KernelFree(address: u32)

  /** What callers owe: no kill that ends strays to another task, no free by a task does harm, and the
      kernel frees no block of a task. */
  ghost predicate Legal(k: Kernel, e: Event) {
    match e
    case CreateTask(_) => true
    case BeginKill(_) => true
    case EndKill(i, busy) => Killing(k, i) && !busy ==> !Stray(k, k.killers[i])
    case TaskAlloc(tid, size) => (UsedTask(k, tid) ==> tid in k.live) && size > 0
    case TaskFree(tid, address) => (UsedTask(k, tid) ==> tid in k.live) && !FreeHarms(k, tid, address)
    case SyscallFree(tid, address) => (UsedTask(k, tid) ==> tid in k.live) && !UserFreeHarms(k, tid, address)
    case SetAllocable(tid, _) => 0 <= tid < |k.tasks|
    case KernelAlloc(size) => 0 < size <= 0xFFFF_F000
    case KernelFree(address) => forall o :: Owns(k, o) ==> BlockOwned(k, o).start != address
  }

  ghost function Step(k: Kernel, e: Event): Kernel
    requires ShapeOk(k) && Legal(k, e)
  {
    match e
    case CreateTask(appLen) => Create(k, appLen).0
    case BeginKill(tid) => KillBegin(k, tid)
    case EndKill(i, busy) => KillEnd(k, i, busy)
    case TaskAlloc(tid, size) => AllocMemory(k, tid, size).0
    case TaskFree(tid, address) => FreeMemory(k, tid, address)
    case SyscallFree(tid, address) => UserFree(k, tid, address).0
    case SetAllocable(tid, value) => k.(tasks := k.tasks[tid := k.tasks[tid].(allocable := value)])
    case KernelAlloc(size) => k.(mem := Alloc(k.mem, size).0)
    case KernelFree(address) => k.(mem := Free(k.mem, address).0)
  }

  lemma SetAllocableKeeps(k: Kernel, end: nat, tid: int, value: bool)
    requires KernelInv(k, end) && 0 <= tid < |k.tasks|
    ensures KernelInv(k.(tasks := k.tasks[tid := k.tasks[tid].(allocable := value)]), end)
  {
    hide Inv, Aligned, NoEmptyBlock;
    var k' := k.(tasks := k.tasks[tid := k.tasks[tid].(allocable := value)]);
    forall t | t in k'.live
      ensures TaskOk(k'.tasks[t])
    {
      var task, task' := k.tasks[t], k'.tasks[t];
      assert TaskOk(task);
      assert forall i, p :: InSpan(task', i, p) == InSpan(task, i, p);
      forall p | 0 <= p < PAGE_COUNT
        ensures PageOk(task', p)
      {
        assert PageOk(task, p);
      }
    }
    forall o | Owns(k', o)
      ensures Owns(k, o) && BlockOwned(k', o) == BlockOwned(k, o)
    {
    }
  }

  lemma KernelMemKeeps(k: Kernel, end: nat, mem': Mem)
    requires KernelInv(k, end) && GoodMem(mem', end)
    requires forall o :: Owns(k, o) ==> BlockOwned(k, o) in mem'.used
    ensures KernelInv(k.(mem := mem'), end)
  {
    hide Inv, Aligned, NoEmptyBlock, TaskOk;
    var k' := k.(mem := mem');
    forall o | Owns(k', o)
      ensures Owns(k, o) && BlockOwned(k', o) == BlockOwned(k, o)
    {
    }
  }

  lemma KillersKeep(k: Kernel, end: nat, killers: seq<int>)
    requires KernelInv(k, end)
    ensures KernelInv(k.(killers := killers), end)
  {
    hide Inv, Aligned, NoEmptyBlock, TaskOk;
    var k' := k.(killers := killers);
    forall o | Owns(k', o)
      ensures Owns(k, o) && BlockOwned(k', o) == BlockOwned(k, o)
    {
    }
  }

  lemma StrayAlike(k: Kernel, k': Kernel, tid: int)
    requires k'.tasks == k.tasks && k'.live == k.live
    ensures Stray(k', tid) ==> Stray(k, tid)
  {
    if Stray(k', tid) {
      var o :| Owns(k', o) && o.tid != tid && BlockOwned(k', o).start in KillList(k', tid);
      assert Owns(k, o) && BlockOwned(k, o) == BlockOwned(k', o);
    }
  }

  lemma KillEndKeeps(k: Kernel, end: nat, i: nat, busy: bool)
    requires KernelInv(k, end) && Legal(k, EndKill(i, busy))
    ensures KernelInv(KillEnd(k, i, busy), end)
  {
    hide KernelInv, Kill;
    if Killing(k, i) {
      var after := k.(killers := k.killers[i := -1]);
      KillersKeep(k, end, after.killers);
      if !busy {
        StrayAlike(k, after, k.killers[i]);
        KillHarmless(after, end, k.killers[i]);
      }
    }
  }

  /** The lists can follow every free of an event. */
  predicate Follows(k: Kernel, e: Event) {
    match e
    case CreateTask(appLen) => CreateFollowed(k, appLen)
    case EndKill(i, busy) =>
      Killing(k, i) && !busy ==> FollowedEach(k.mem, KillList(k, k.killers[i]))
    case TaskFree(tid, address) => MemoryFollowed(k, tid, address)
    case SyscallFree(tid, address) => UserFollowed(k, tid, address)
    case KernelFree(address) => Followed(k.mem, address)
    case _ => true
  }

  lemma StepKeeps(k: Kernel, end: nat, e: Event)
    requires KernelInv(k, end) && Legal(k, e)
    ensures KernelInv(Step(k, e), end)
  {
    hide Inv, Aligned, NoEmptyBlock, TaskOk, Ownership;
    match e
    case CreateTask(appLen) => CreateKeeps(k, end, appLen);
    case BeginKill(tid) => KillersKeep(k, end, KillBegin(k, tid).killers);
    case EndKill(i, busy) => KillEndKeeps(k, end, i, busy);
    case TaskAlloc(tid, size) => AllocMemoryKeeps(k, end, tid, size);
    case TaskFree(tid, address) => FreeMemoryKeepsIff(k, end, tid, address);
    case SyscallFree(tid, address) => UserFreeKeepsIff(k, end, tid, address);
    case SetAllocable(tid, value) => SetAllocableKeeps(k, end, tid, value);
    case KernelAlloc(size) =>
      AllocGives(k.mem, end, size);
      OwnedUsed(k);
      KernelMemKeeps(k, end, Alloc(k.mem, size).0);
    case KernelFree(address) =>
      FreeKeeps(k.mem, end, address);
      OwnedUsed(k);
      KernelMemKeeps(k, end, Free(k.mem, address).0);
  }

  lemma OwnedUsed(k: Kernel)
    requires Ownership(k)
    ensures forall o :: Owns(k, o) ==> BlockOwned(k, o) in k.mem.used
  {
  }

  /** Every state of a run: each event is legal where it happens. */
  ghost predicate LegalRun(k: Kernel, es: seq<Event>, states: seq<Kernel>) {
    && |states| == |es| + 1
    && states[0] == k
    && forall i :: 0 <= i < |es| ==> ShapeOk(states[i]) && Legal(states[i], es[i]) && states[i + 1] == Step(states[i], es[i])
  }

  lemma {:induction false} RunKeeps(k: Kernel, end: nat, es: seq<Event>, states: seq<Kernel>, n: nat)
    requires KernelInv(k, end) && LegalRun(k, es, states) && n <= |es|
    ensures KernelInv(states[n], end)
  {
    if n > 0 {
      RunKeeps(k, end, es, states, n - 1);
      StepKeeps(states[n - 1], end, es[n - 1]);
    }
  }

  /** A freshly initialised kernel: no task, no block but free memory. */
  ghost predicate Booted(k: Kernel, end: nat) {
    && ALLOC_START < end <= WORD && k.mem == Init(end) && k.live == {} && k.killers == [] && ShapeOk(k)
    && forall t :: 0 <= t < |k.tasks| ==> !k.tasks[t].used && k.tasks[t].allocable
  }

  /** The lists can follow every free of a run. */
  predicate ListsFollow(es: seq<Event>, states: seq<Kernel>) {
    |states| == |es| + 1 && forall i :: 0 <= i < |es| ==> Follows(states[i], es[i])
  }

  /** When memory does not end on a page boundary they can, over every run from boot. */
  lemma ListsAlwaysFollow(k: Kernel, end: nat, es: seq<Event>, states: seq<Kernel>)
    requires Booted(k, end) && LegalRun(k, es, states) && end % PAGE_SIZE != 0
    ensures ListsFollow(es, states)
  {
    hide Follows, KernelInv, Step, Legal;
    assert KernelInv(k, end) by {
      BootedInv(k, end);
    }
    forall i | 0 <= i < |es|
      ensures Follows(states[i], es[i])
    {
      RunKeeps(k, end, es, states, i);
      AlwaysFollows(states[i], end, es[i]);
    }
  }

  lemma BootedInv(k: Kernel, end: nat)
    requires Booted(k, end)
    ensures KernelInv(k, end)
  {
    InitInv(end);
  }

  lemma AlwaysFollows(k: Kernel, end: nat, e: Event)
    requires KernelInv(k, end) && end % PAGE_SIZE != 0
    ensures Follows(k, e)
  {
    hide Inv, NoEmptyBlock, Free, Ownership, TaskOk, Alloc, FollowedEach;
    AlignedRounded(k.mem);
    SomeFree(k.mem, end);
    match e {
      case CreateTask(appLen) =>
        if appLen <= MAX_APP_LEN {
          StackSize();
          ImageSize(NoTask().(appLen := appLen));
          AllocGives(k.mem, end, STACK_LENGTH);
          var mem0 := Alloc(k.mem, STACK_LENGTH).0;
          AllocGives(mem0, end, ImageLength(appLen));
          var mem1 := Alloc(mem0, ImageLength(appLen)).0;
          AlignedRounded(mem1);
          SomeFree(mem1, end);
        }
      case EndKill(i, busy) =>
        if Killing(k, i) {
          FollowedEachIff(k.mem, KillList(k, k.killers[i]));
        }
      case _ =>
    }
  }

  lemma AlignedRounded(s: Mem)
    requires Aligned(s)
    ensures UsedRounded(s)
  {
  }

  /** Isolation over every run from boot in which no kill strays and which the lists of the allocator
      can follow. */
  lemma EveryRunIsolates(k: Kernel, end: nat, es: seq<Event>, states: seq<Kernel>, n: nat,
                         t: int, p: nat, u: int, q: nat, v: int)
    requires Booted(k, end) && LegalRun(k, es, states) && ListsFollow(es, states) && n <= |es|
    requires WritablePage(states[n], t, p)
    ensures WritablePage(states[n], u, q) && FrameAddress(states[n], t, p) == FrameAddress(states[n], u, q) ==> t == u && p == q
    ensures v in states[n].live && 0 <= v < |states[n].tasks| ==>
              && !(states[n].tasks[v].pagedt <= FrameAddress(states[n], t, p) < states[n].tasks[v].pagedt + PAGEDT_LENGTH)
              && !(states[n].tasks[v].stack <= FrameAddress(states[n], t, p) < states[n].tasks[v].stack + STACK_LENGTH)
  {
    InitInv(end);
    assert KernelInv(k, end);
    RunKeeps(k, end, es, states, n);
    if WritablePage(states[n], u, q) && FrameAddress(states[n], t, p) == FrameAddress(states[n], u, q) {
      NoFrameShared(states[n], end, t, p, u, q);
    }
    if v in states[n].live && 0 <= v < |states[n].tasks| {
      KernelBlocksUnreachable(states[n], end, t, p, v);
    }
  }

  /** Over every such run the processor's walk through the tables of a live task, wherever their
      block lies, reads the entry that the kernel's index arithmetic uses. */
  lemma EveryRunWalks(k: Kernel, end: nat, es: seq<Event>, states: seq<Kernel>, n: nat, tid: int, address: u32)
    requires Booted(k, end) && LegalRun(k, es, states) && ListsFollow(es, states) && n <= |es|
    requires tid in states[n].live && 0 <= tid < |states[n].tasks| && IsTable(states[n].tasks[tid].table)
    ensures var task := states[n].tasks[tid];
      var base := TableBase(task.pagedt);
      && base % PAGE_SIZE == 0 && task.pagedt < base && base + 4 * CR3_LENGTH <= task.pagedt + PAGEDT_LENGTH
      && (var d := task.table[address / 0x40_0000]; Present(d) && Writable(d) && UserPage(d))
      && WalkAddress(task.table[address / 0x40_0000], address) == base + 4 * (TABLE_ITEM_COUNT + address / PAGE_SIZE)
  {
    BootedInv(k, end);
    RunKeeps(k, end, es, states, n);
    LiveWalk(states[n], end, tid, address);
  }

  lemma LiveWalk(k: Kernel, end: nat, tid: int, address: u32)
    requires KernelInv(k, end) && tid in k.live
    ensures TaskOk(k.tasks[tid])
    ensures var task := k.tasks[tid];
      var base := TableBase(task.pagedt);
      && base % PAGE_SIZE == 0 && task.pagedt < base && base + 4 * CR3_LENGTH <= task.pagedt + PAGEDT_LENGTH
      && (var d := task.table[address / 0x40_0000]; Present(d) && Writable(d) && UserPage(d))
      && WalkAddress(task.table[address / 0x40_0000], address) == base + 4 * (TABLE_ITEM_COUNT + address / PAGE_SIZE)
  {
    hide Inv, Aligned, NoEmptyBlock, EmptyTable, WalkAddress, Present, Writable, UserPage, PageOk;
    var task := k.tasks[tid];
    assert TaskOk(task);
    assert Owns(k, PageTable(tid)) && BlockOwned(k, PageTable(tid)) in k.mem.used;
    UsedBlockShape(k.mem, end, BlockOwned(k, PageTable(tid)));
    BaseInside(task.pagedt);
    WalkFindsEntry(task.table, TableBase(task.pagedt), address);
  }

  lemma BaseInside(pagedt: u32)
    requires pagedt % PAGE_SIZE == 0 && pagedt + PAGEDT_LENGTH <= WORD
    ensures TableBase(pagedt) == pagedt + PAGE_SIZE && TableBase(pagedt) + 4 * CR3_LENGTH <= pagedt + PAGEDT_LENGTH
  {
  }

  /** Over every such run, what the addresses of a live task mean: below 16 MB the same physical
      address; in the image its own, the first page read-only; in a block that was handed out the
      block's own.  All of them may be used by the task's code. */
  lemma EveryRunTranslates(k: Kernel, end: nat, es: seq<Event>, states: seq<Kernel>, n: nat, tid: int, address: u32)
    requires Booted(k, end) && LegalRun(k, es, states) && ListsFollow(es, states) && n <= |es|
    requires tid in states[n].live && 0 <= tid < |states[n].tasks| && IsTable(states[n].tasks[tid].table)
    ensures var task := states[n].tasks[tid];
      var e := PageEntry(task.table, address / PAGE_SIZE);
      && (address < 0x0100_0000 ==> Translate(task.table, address) == address && Present(e) && !Writable(e) && UserPage(e))
      && (0x0100_0000 <= address < 0x0130_0000 + task.appLen ==>
            && Translate(task.table, address) == task.addr + (address - 0x0100_0000)
            && Present(e) && UserPage(e) && (Writable(e) <==> address >= 0x0100_1000))
    ensures var task := states[n].tasks[tid];
      forall i :: 0 <= i < |task.blocks| && InSpan(task, i, address / PAGE_SIZE) ==>
        var e := PageEntry(task.table, address / PAGE_SIZE);
        && Translate(task.table, address) == task.blocks[i] + (address - task.spans[i].first * PAGE_SIZE)
        && Present(e) && UserPage(e) && Writable(e)
  {
    BootedInv(k, end);
    RunKeeps(k, end, es, states, n);
    LiveTranslates(states[n], end, tid, address);
  }

  lemma LiveTranslates(k: Kernel, end: nat, tid: int, address: u32)
    requires KernelInv(k, end) && tid in k.live && 0 <= tid < |k.tasks| && IsTable(k.tasks[tid].table)
    ensures var task := k.tasks[tid];
      var e := PageEntry(task.table, address / PAGE_SIZE);
      && (address < 0x0100_0000 ==> Translate(task.table, address) == address && Present(e) && !Writable(e) && UserPage(e))
      && (0x0100_0000 <= address < 0x0130_0000 + task.appLen ==>
            && Translate(task.table, address) == task.addr + (address - 0x0100_0000)
            && Present(e) && UserPage(e) && (Writable(e) <==> address >= 0x0100_1000))
    ensures var task := k.tasks[tid];
      forall i :: 0 <= i < |task.blocks| && InSpan(task, i, address / PAGE_SIZE) ==>
        var e := PageEntry(task.table, address / PAGE_SIZE);
        && Translate(task.table, address) == task.blocks[i] + (address - task.spans[i].first * PAGE_SIZE)
        && Present(e) && UserPage(e) && Writable(e)
  {
    hide Inv, Aligned, NoEmptyBlock, Ownership, DirectoryOk, Present, Writable, UserPage;
    LiveTaskOk(k, end, tid);
    var task := k.tasks[tid];
    assert PageOk(task, address / PAGE_SIZE);
    ImageEnd(task);
  }

  lemma ImageEnd(task: Task)
    requires task.appLen <= MAX_APP_LEN
    ensures 0x0130_0000 + task.appLen <= (IMAGE_PAGE + ImagePages(task)) * PAGE_SIZE
  {
  }
}
