/** The memory of tasks as the source keeps it: task slots with their pointer arrays and page
    tables, over one allocator, updated in place.  Every method does what `TaskMemorySpec` says. */
module TaskMemory {
  import opened Machine
  import opened MemorySpec
  import opened MemoryLists
  import opened Memory
  import opened Paging
  import opened TaskMemorySpec

  /** A kernel of one task, number 0: what an operation does to a task and the allocator. */
  ghost function Solo(m: Mem, task: Task): Kernel {
    Kernel(m, [task], {}, [])
  }

  class TaskSlot {
    var used: bool
    var allocable: bool
    var appLen: nat
    var addr: u32
    var pagedt: u32
    var stack: u32
    const blocks: array<u32>
    var table: array<u32>
    ghost var spans: seq<Span>

    constructor (blocks: array<u32>, table: array<u32>)
      ensures this.blocks == blocks && this.table == table && !used && allocable
      ensures |spans| == blocks.Length
    {
      this.blocks, this.table := blocks, table;
      used, allocable, appLen, addr, pagedt, stack := false, true, 0, 0, 0, 0;
      spans := seq(blocks.Length, i => Span(0, 0));
    }

    ghost predicate Shaped()
      reads this
    {
      && table.Length == CR3_LENGTH && blocks.Length == MAX_TASK_MEMORY_BLOCK_COUNT
      && |spans| == MAX_TASK_MEMORY_BLOCK_COUNT && table != blocks
    }

    ghost function View(): Task
      reads this, blocks, table
    {
      Task(used, allocable, appLen, addr, pagedt, stack, blocks[..], spans, table[..])
    }

    /** The body of `TaskmgrConvertLAddrToPAddr`. */
    method ToPhysical(address: u32) returns (physical: u32)
      requires Shaped()
      ensures physical == Translate(table[..], address)
    {
      var entry := table[TABLE_ITEM_COUNT + address / PAGE_SIZE];
      physical := Frame(entry) * PAGE_SIZE + address % PAGE_SIZE;
    }

    /** The first free place among the block pointers. */
    method FreePlace() returns (ui: nat)
      requires Shaped()
      ensures ui == FreeBlockSlot(blocks[..], 0)
    {
      ui := 0;
      while ui < MAX_TASK_MEMORY_BLOCK_COUNT && blocks[ui] != 0
        invariant 0 <= ui <= MAX_TASK_MEMORY_BLOCK_COUNT
        invariant FreeBlockSlot(blocks[..], 0) == FreeBlockSlot(blocks[..], ui)
      {
        ui := ui + 1;
      }
    }

    /** The body of `TaskmgrAllocMemory`: the linear address, 0 for NULL. */
    method TakeMemory(mem: MemoryManager, size: u32) returns (linear: u32)
      requires Shaped() && used && mem.Valid()
      modifies mem, mem.table, this`spans, blocks, table
      ensures Shaped() && mem.Valid()
      ensures var k := AllocMemory(Solo(old(mem.Contents()), old(View())), 0, size);
        mem.Contents() == k.0.mem && View() == k.0.tasks[0] && linear == k.1
    {
      hide Sound, AsMem, FindPages, Mapped, Alloc, FreeBlockSlot;
      var ui := FreePlace();
      if ui == MAX_TASK_MEMORY_BLOCK_COUNT {
        return 0;
      }
      var found, start := FindFreePages(table, size);
      FindPagesIs(table[..], size, found, start);
      if !found {
        return 0;
      }
      var p := Take(mem, size);
      if p == 0 {
        return 0;
      }
      var _ := MapUserPageTableWithPermission(table, start, size, p, RW_RWE);
      blocks[ui] := p;
      spans := spans[ui := Span(start / PAGE_SIZE, PagesOf(size))];
      linear := start;
    }

    /** The memory part of `_TskmgrCreateTask` for a free slot: its system-call stack and, with that,
        the rest. */
    method Start(mem: MemoryManager, appLen: nat) returns (ok: bool)
      requires Shaped() && !used && allocable && mem.Valid() && appLen <= MAX_APP_LEN
      modifies mem, mem.table, this, blocks
      ensures Shaped() && (table == old(table) || fresh(table))
      ensures var before := Solo(old(mem.Contents()), old(View()));
        var k := Create(before, appLen);
        && |k.0.tasks| == 1 && View() == k.0.tasks[0] && ok == (k.1 != -1)
        && (CreateFollowed(before, appLen) ==> mem.Valid() && mem.Contents() == k.0.mem)
        && (!CreateFollowed(before, appLen) ==> mem.Broken())
    {
      hide Sound, AsMem, Alloc, Free, Create, Launch, LaunchFollowed, CreateFollowed;
      CreateCases(mem.Contents(), View(), appLen);
      var p := Take(mem, STACK_LENGTH);
      if p == 0 {
        return false;
      }
      stack := p;
      ok := Load(mem, appLen);
    }

    /** The image and the page table.  When the page table finds no room it frees the image again,
        and breaks the lists where they cannot follow that. */
    method Load(mem: MemoryManager, appLen: nat) returns (ok: bool)
      requires Shaped() && mem.Valid() && appLen <= MAX_APP_LEN
      modifies mem, mem.table, this, blocks
      ensures Shaped() && (table == old(table) || fresh(table))
      ensures var before := Solo(old(mem.Contents()), old(View()));
        var k := Launch(before, 0, appLen);
        && |k.0.tasks| == 1 && View() == k.0.tasks[0] && ok == (k.1 != -1)
        && (LaunchFollowed(before.mem, appLen) ==> mem.Valid() && mem.Contents() == k.0.mem)
        && (!LaunchFollowed(before.mem, appLen) ==> mem.Broken())
    {
      hide Sound, AsMem, Alloc, Free, Launch, ImageLength, TaskTable, Followed, LaunchFollowed;
      ImageFits(appLen);
      FollowedCases(mem.Contents(), appLen);
      LaunchCases(mem.Contents(), View(), appLen);
      used, this.appLen := true, appLen;
      addr := Take(mem, ImageLength(appLen));
      if addr == 0 {
        return false;
      }
      ClearPlaces();
      pagedt := Take(mem, PAGEDT_LENGTH);
      if pagedt == 0 {
        var _ := mem.MemFree(addr);
        return false;
      }
      table := BuildTable(appLen, addr, pagedt);
      ok := true;
    }

    /** The loop that clears the block pointers. */
    method ClearPlaces()
      requires Shaped()
      modifies blocks
      ensures blocks[..] == NoBlocks()
    {
      var ui := 0;
      while ui < MAX_TASK_MEMORY_BLOCK_COUNT
        invariant 0 <= ui <= MAX_TASK_MEMORY_BLOCK_COUNT == blocks.Length
        invariant forall i :: 0 <= i < ui ==> blocks[i] == 0
      {
        blocks[ui] := 0;
        ui := ui + 1;
      }
    }

    /** The loop that forgets a block pointer. */
    method ForgetPlaces(p: u32)
      requires Shaped()
      modifies blocks
      ensures blocks[..] == Forget(old(blocks[..]), p)
    {
      ghost var before := blocks[..];
      var ui := 0;
      while ui < MAX_TASK_MEMORY_BLOCK_COUNT
        invariant 0 <= ui <= MAX_TASK_MEMORY_BLOCK_COUNT == blocks.Length
        invariant forall i :: 0 <= i < ui ==> blocks[i] == if before[i] == p then 0 else before[i]
        invariant forall i :: ui <= i < blocks.Length ==> blocks[i] == before[i]
      {
        if blocks[ui] == p {
          blocks[ui] := 0;
        }
        ui := ui + 1;
      }
    }

    /** The body of `TaskmgrFreeMemory`; it breaks the lists where they cannot follow. */
    method ReturnMemory(mem: MemoryManager, address: u32)
      requires Shaped() && used && mem.Valid()
      modifies mem, mem.table, blocks, table
      ensures Shaped()
      ensures var before := Solo(old(mem.Contents()), old(View()));
        var k := FreeMemory(before, 0, address);
        && |k.tasks| == 1 && View() == k.tasks[0]
        && (MemoryFollowed(before, 0, address) ==> mem.Valid() && mem.Contents() == k.mem)
        && (!MemoryFollowed(before, 0, address) ==> mem.Broken())
    {
      hide Sound, AsMem, Translate, Freed, Free, BlockSize, Forget, Followed;
      var p := ToPhysical(address);
      if p == 0 {
        return;
      }
      var size := mem.MemGetBlockSise(p);
      var _ := FreePages(table, address, size);
      ForgetPlaces(p);
      var _ := mem.MemFree(p);
    }

    /** The first place of a block pointer. */
    method FindPlace(p: u32) returns (ui: nat)
      requires Shaped()
      ensures ui == PlaceOf(blocks[..], p, 0)
    {
      ui := 0;
      while ui < MAX_TASK_MEMORY_BLOCK_COUNT && blocks[ui] != p
        invariant 0 <= ui <= MAX_TASK_MEMORY_BLOCK_COUNT
        invariant PlaceOf(blocks[..], p, 0) == PlaceOf(blocks[..], p, ui)
      {
        ui := ui + 1;
      }
    }

    /** The body of the system call that frees memory; it breaks the lists where they cannot follow. */
    method UserReturn(mem: MemoryManager, address: u32) returns (ok: bool)
      requires Shaped() && used && mem.Valid()
      modifies mem, mem.table, blocks, table
      ensures Shaped()
      ensures var before := Solo(old(mem.Contents()), old(View()));
        var r := UserFree(before, 0, address);
        && |r.0.tasks| == 1 && View() == r.0.tasks[0] && ok == r.1
        && (UserFollowed(before, 0, address) ==> mem.Valid() && mem.Contents() == r.0.mem)
        && (!UserFollowed(before, 0, address) ==> mem.Broken())
    {
      hide Sound, AsMem, Translate, Freed, Free, BlockSize, Followed, PagesOf;
      if address == 0 {
        return false;
      }
      var p := ToPhysical(address);
      if p == 0 {
        return false;
      }
      var ui := FindPlace(p);
      if ui == MAX_TASK_MEMORY_BLOCK_COUNT {
        return false;
      }
      var length := mem.MemGetBlockSise(p);
      if length == 0 {
        return false;
      }
      ok := FreePages(table, address, length);
      if ok {
        blocks[ui] := 0;
        ok := mem.MemFree(p);
      }
    }

    /** The loop of a kill that frees the blocks of the task; `last` are freed after it.  It stops
        at a free that the lists cannot follow. */
    method ReleaseBlocks(mem: MemoryManager, ghost last: seq<u32>) returns (stale: bool)
      requires mem.Valid()
      modifies mem, mem.table, blocks
      ensures stale ==> mem.Broken() && !FollowedEach(old(mem.Contents()), old(blocks[..]) + last)
      ensures !stale ==> mem.Valid() && forall i :: 0 <= i < blocks.Length ==> blocks[i] == 0
      ensures !stale ==>
        && (FollowedEach(old(mem.Contents()), old(blocks[..]) + last)
            <==> FollowedEach(mem.Contents(), last))
        && FreeEach(old(mem.Contents()), old(blocks[..]) + last) == FreeEach(mem.Contents(), last)
    {
      hide Sound, AsMem, Free, FreeEach, FollowedEach, Followed;
      ghost var before := blocks[..];
      ghost var goal := FreeEach(mem.Contents(), before + last);
      ghost var follows := FollowedEach(mem.Contents(), before + last);
      assert before[0..] == before;
      var ui := 0;
      while ui < blocks.Length
        invariant 0 <= ui <= blocks.Length == |before| && mem.Valid()
        invariant follows == FollowedEach(mem.Contents(), before[ui..] + last)
        invariant forall i :: 0 <= i < ui ==> blocks[i] == 0
        invariant forall i :: ui <= i < blocks.Length ==> blocks[i] == before[i]
        invariant goal == FreeEach(mem.Contents(), before[ui..] + last)
      {
        FreeEachStep(mem.Contents(), before[ui..] + last);
        assert (before[ui..] + last)[1..] == before[ui + 1..] + last;
        if blocks[ui] != 0 {
          stale := Release(mem, blocks[ui]);
          if stale {
            return;
          }
          blocks[ui] := 0;
        }
        ui := ui + 1;
      }
      assert before[ui..] + last == last;
      stale := false;
    }

    /** `KnlFreeSystemCall`, which does not look for NULL: no block starts there. */
    method ReleaseStack(mem: MemoryManager) returns (stale: bool)
      requires mem.Valid()
      modifies mem, mem.table
      ensures stale <==> stack != 0 && !Followed(old(mem.Contents()), stack)
      ensures !stale ==>
        && mem.Valid()
        && mem.Contents() == if stack == 0 then old(mem.Contents()) else Free(old(mem.Contents()), stack).0
      ensures stale ==> mem.Broken()
    {
      hide Sound, AsMem, Free, Followed;
      SoundMeans(mem.View(), mem.memoryLimit + 1, mem.usedBytes);
      FreeZero(mem.Contents(), mem.memoryLimit + 1);
      stale := Release(mem, stack);
    }

    /** What `_TskmgrKillTask` frees and clears, up to a free that the lists cannot follow. */
    method End(mem: MemoryManager) returns (stale: bool)
      requires Shaped() && mem.Valid()
      modifies mem, mem.table, this`used, blocks
      ensures Shaped()
      ensures stale <==> !FollowedEach(old(mem.Contents()), [addr] + old(blocks[..]) + [pagedt, stack])
      ensures !stale ==>
        && mem.Valid()
        && var k := Kill(Solo(old(mem.Contents()), old(View())), 0);
           mem.Contents() == k.mem && View() == k.tasks[0]
      ensures stale ==> mem.Broken()
    {
      hide Sound, AsMem, Free, FreeEach, FollowedEach, Followed;
      ghost var before := blocks[..];
      FreeEachStep(mem.Contents(), [addr] + before + [pagedt, stack]);
      assert ([addr] + before + [pagedt, stack])[1..] == before + [pagedt, stack];
      if addr != 0 {
        stale := Release(mem, addr);
        if stale {
          return;
        }
      }
      stale := ReleaseBlocks(mem, [pagedt, stack]);
      if stale {
        return;
      }
      FreeEachStep(mem.Contents(), [pagedt, stack]);
      assert [pagedt, stack][1..] == [stack];
      if pagedt != 0 {
        stale := Release(mem, pagedt);
        if stale {
          return;
        }
      }
      FreeEachStep(mem.Contents(), [stack]);
      FreeEachNone(if stack == 0 then mem.Contents() else Free(mem.Contents(), stack).0);
      assert [stack][1..] == [];
      stale := ReleaseStack(mem);
      used := false;
      assert blocks[..] == NoBlocks();
    }
  }

  /** `MemAlloc`; a block never starts at address 0, so 0 says that there is none. */
  method Take(mem: MemoryManager, length: u32) returns (address: u32)
    requires mem.Valid()
    modifies mem, mem.table
    ensures mem.Valid() && mem.Contents() == Alloc(old(mem.Contents()), length).0
    ensures Alloc(old(mem.Contents()), length).1 == if address == 0 then None else Some(address)
    ensures address == 0 ==> mem.Contents() == old(mem.Contents())
  {
    hide Sound, AsMem, Alloc;
    SoundMeans(mem.View(), mem.memoryLimit + 1, mem.usedBytes);
    AllocExact(mem.Contents(), mem.memoryLimit + 1, length);
    address := mem.MemAlloc(length);
  }

  /** The page table of a new task: an empty one, then the kernel, the image, and the image's
      first page read-only. */
  method BuildTable(appLen: nat, addr: u32, pagedt: u32) returns (cr3: array<u32>)
    requires appLen <= MAX_APP_LEN
    ensures fresh(cr3) && cr3.Length == CR3_LENGTH && cr3[..] == TaskTable(appLen, addr, pagedt)
  {
    hide Mapped, EmptyTable;
    cr3 := CreateEmptyUserPageTable(TableBase(pagedt));
    var _ := MapUserPageTableWithPermission(cr3, 0, KERNEL_LENGTH, 0, RW_RE);
    var _ := MapUserPageTableWithPermission(cr3, IMAGE_START, ImageLength(appLen), addr, RW_RWE);
    var _ := MapUserPageTableWithPermission(cr3, IMAGE_START, PAGE_SIZE, addr, RW_RE);
  }

  /** `_MemFree`, and whether the lists could not follow it. */
  method Release(mem: MemoryManager, p: u32) returns (stale: bool)
    requires mem.Valid()
    modifies mem, mem.table
    ensures stale <==> !Followed(old(mem.Contents()), p)
    ensures !stale ==> mem.Valid() && mem.Contents() == Free(old(mem.Contents()), p).0
    ensures stale ==> mem.Broken()
  {
    hide Sound, AsMem, Followed;
    FollowedByHeads(mem.View(), mem.memoryLimit + 1, mem.usedBytes, p);
    stale := mem.mbdtHead == NULL && mem.umbdtHead != mem.umbdtFoot;
    var ok := mem.MemFree(p);
    stale := ok && stale;
  }

  /** All slots differ in every object. */
  ghost predicate AllApart(slots: seq<TaskSlot>)
    reads slots
  {
    && (forall i :: 0 <= i < |slots| ==> slots[i].Shaped())
    && (forall i, j :: 0 <= i < |slots| && 0 <= j < |slots| && i != j ==>
          && slots[i] != slots[j] && slots[i].table != slots[j].blocks
          && slots[i].table != slots[j].table && slots[i].blocks != slots[j].blocks)
  }

  class TaskManager {
    const tasks: seq<TaskSlot>
    const mem: MemoryManager
    ghost var live: set<int>
    ghost var killers: seq<int>

    constructor (tasks: seq<TaskSlot>, mem: MemoryManager)
      ensures this.tasks == tasks && this.mem == mem && live == {} && killers == []
    {
      this.tasks, this.mem, live, killers := tasks, mem, {}, [];
    }

    /** The slots are different objects with different arrays of the right sizes. */
    ghost predicate Shaped()
      reads tasks
    {
      |tasks| == MAX_TASK_COUNT && AllApart(tasks)
    }

    /** The allocator holds `m` and the slots hold `ts`. */
    ghost predicate Objects(m: Mem, ts: seq<Task>)
      reads tasks, mem, mem.table, set i | 0 <= i < |tasks| :: tasks[i].table,
            set i | 0 <= i < |tasks| :: tasks[i].blocks
    {
      && Shaped()
      && |ts| == |tasks| && (forall i :: 0 <= i < |tasks| ==> ts[i] == tasks[i].View())
      && mem.Valid() && m == mem.Contents()
    }

    /** The objects hold the state `k` of the specification. */
    ghost predicate Holds(k: Kernel)
      reads this, tasks, mem, mem.table, set i | 0 <= i < |tasks| :: tasks[i].table,
            set i | 0 <= i < |tasks| :: tasks[i].blocks
    {
      Objects(k.mem, k.tasks) && k.live == live && k.killers == killers
    }

    /** The first free slot, or `MAX_TASK_COUNT`. */
    method Scan(ghost k: Kernel) returns (ui: nat)
      requires Holds(k)
      ensures ui <= MAX_TASK_COUNT
      ensures FreeSlot(k.tasks, 0) == if ui == MAX_TASK_COUNT then -1 else ui
    {
      hide Sound, AsMem;
      ui := 0;
      while ui < MAX_TASK_COUNT && !(!tasks[ui].used && tasks[ui].allocable)
        invariant 0 <= ui <= MAX_TASK_COUNT
        invariant FreeSlot(k.tasks, 0) == FreeSlot(k.tasks, ui)
      {
        ui := ui + 1;
      }
    }

    /** Bookkeeping: a creation returned the id. */
    ghost method Record(tid: int)
      modifies this`live
      ensures live == if tid == -1 then old(live) else old(live) + {tid}
    {
      live := if tid == -1 then live else live + {tid};
    }

    method StartSlot(ui: nat, appLen: nat, ghost k: Kernel) returns (ok: bool)
      requires Holds(k) && appLen <= MAX_APP_LEN
      requires ui < |tasks| && !tasks[ui].used && tasks[ui].allocable
      modifies mem, mem.table, tasks[ui], tasks[ui].blocks
      ensures var before := Solo(k.mem, k.tasks[ui]);
        var r := Create(before, appLen);
        && |r.0.tasks| == 1 && ok == (r.1 != -1)
        && (CreateFollowed(before, appLen) ==>
              Objects(r.0.mem, k.tasks[ui := r.0.tasks[0]]))
        && (!CreateFollowed(before, appLen) ==> mem.Broken())
    {
      hide Sound, AsMem, Create, CreateFollowed;
      ok := tasks[ui].Start(mem, appLen);
    }

    /** A creation in the first free slot. */
    method StartTask(ui: nat, appLen: nat, ghost k: Kernel) returns (ok: bool)
      requires Holds(k) && appLen <= MAX_APP_LEN && ui < |tasks| && FreeSlot(k.tasks, 0) == ui
      modifies this`live, mem, mem.table, tasks[ui], tasks[ui].blocks
      ensures Create(k, appLen).1 == if ok then ui else -1
      ensures CreateFollowed(k, appLen) ==> Holds(Create(k, appLen).0)
      ensures !CreateFollowed(k, appLen) ==> mem.Broken()
    {
      hide Sound, AsMem, Create, CreateFollowed;
      CreateSolo(k, appLen);
      ok := StartSlot(ui, appLen, k);
      hide Objects, Shaped;
      Record(if ok then ui else -1);
    }

    /** The memory part of `_TskmgrCreateTask`: the id, or -1. */
    method CreateTask(appLen: nat, ghost k: Kernel) returns (tid: int)
      requires Holds(k)
      modifies this`live, mem, mem.table, tasks, set i | 0 <= i < |tasks| :: tasks[i].blocks
      ensures tid == Create(k, appLen).1
      ensures CreateFollowed(k, appLen) ==> Holds(Create(k, appLen).0)
      ensures !CreateFollowed(k, appLen) ==> mem.Broken()
    {
      assert |tasks| == MAX_TASK_COUNT;
      hide Sound, AsMem, Create, CreateFollowed, Objects;
      if appLen > MAX_APP_LEN || FreeSlot(k.tasks, 0) == -1 {
        CreateSolo(k, appLen);
      }
      if appLen > MAX_APP_LEN {
        return -1;
      }
      var ui := Scan(k);
      if ui == MAX_TASK_COUNT {
        return -1;
      }
      var ok := StartTask(ui, appLen, k);
      tid := if ok then ui else -1;
    }

    /** `TaskmgrConvertLAddrToPAddr` */
    method ConvertLAddrToPAddr(tid: int, address: u32, ghost k: Kernel) returns (physical: u32)
      requires Holds(k)
      ensures physical == if UsedTask(k, tid) then Translate(k.tasks[tid].table, address) else 0
    {
      hide Sound, AsMem, Translate;
      if tid < 0 || tid >= MAX_TASK_COUNT || !tasks[tid].used {
        return 0;
      }
      physical := tasks[tid].ToPhysical(address);
    }

    /** `TaskmgrAllocMemory`: the linear address, 0 for NULL. */
    method AllocTaskMemory(tid: int, size: u32, ghost k: Kernel) returns (linear: u32)
      requires Holds(k)
      modifies mem, mem.table
      modifies if 0 <= tid < |tasks| then {tasks[tid], tasks[tid].blocks, tasks[tid].table} else {}
      ensures Holds(AllocMemory(k, tid, size).0) && linear == AllocMemory(k, tid, size).1
    {
      hide Sound, AsMem, AllocMemory;
      AllocSolo(k, tid, size);
      if tid < 0 || tid >= MAX_TASK_COUNT || !tasks[tid].used {
        return 0;
      }
      linear := tasks[tid].TakeMemory(mem, size);
    }

    /** `TaskmgrFreeMemory`; it breaks the lists where they cannot follow. */
    method FreeTaskMemory(tid: int, address: u32, ghost k: Kernel)
      requires Holds(k)
      modifies mem, mem.table
      modifies if 0 <= tid < |tasks| then {tasks[tid], tasks[tid].blocks, tasks[tid].table} else {}
      ensures MemoryFollowed(k, tid, address) ==> Holds(FreeMemory(k, tid, address))
      ensures !MemoryFollowed(k, tid, address) ==> mem.Broken()
    {
      hide Sound, AsMem, FreeMemory, MemoryFollowed;
      FreeSolo(k, tid, address);
      if tid < 0 || tid >= MAX_TASK_COUNT || !tasks[tid].used {
        return;
      }
      tasks[tid].ReturnMemory(mem, address);
    }

    /** The system call that frees memory, for a task; it breaks the lists where they cannot follow. */
    method SyscallFree(tid: int, address: u32, ghost k: Kernel) returns (ok: bool)
      requires Holds(k)
      modifies mem, mem.table
      modifies if 0 <= tid < |tasks| then {tasks[tid], tasks[tid].blocks, tasks[tid].table} else {}
      ensures ok == UserFree(k, tid, address).1
      ensures UserFollowed(k, tid, address) ==> Holds(UserFree(k, tid, address).0)
      ensures !UserFollowed(k, tid, address) ==> mem.Broken()
    {
      hide Sound, AsMem, UserFree, UserFollowed;
      UserSolo(k, tid, address);
      if tid < 0 || tid >= MAX_TASK_COUNT || !tasks[tid].used {
        return false;
      }
      ok := tasks[tid].UserReturn(mem, address);
    }

    /** The check of `_TskmgrKillTask`, before it lets interrupts in. */
    method BeginKill(tid: int, ghost k: Kernel) returns (ok: bool)
      requires Holds(k)
      modifies this`killers
      ensures Holds(KillBegin(k, tid)) && ok == UsedTask(k, tid)
    {
      hide Sound, AsMem;
      if tid < 0 || tid >= MAX_TASK_COUNT || !tasks[tid].used {
        return false;
      }
      killers := killers + [tid];
      ok := true;
    }

    /** The rest of `_TskmgrKillTask`: refused while the task holds a disk lock, and not checked
        again otherwise.  It stops at a free that the lists cannot follow. */
    method EndKill(tid: int, busy: bool, ghost i: nat, ghost k: Kernel) returns (ok: bool)
      requires Holds(k) && Killing(k, i) && k.killers[i] == tid
      modifies this, mem, mem.table
      modifies tasks[tid], tasks[tid].blocks
      ensures ok == !busy
      ensures Follows(k, Event.EndKill(i, busy)) ==> Holds(KillEnd(k, i, busy))
      ensures !Follows(k, Event.EndKill(i, busy)) ==> mem.Broken()
    {
      hide Sound, AsMem, Kill, FollowedEach;
      KillSolo(k.(killers := k.killers[i := -1]), tid);
      ok := !busy;
      if !busy {
        EndTask(tid, k);
        live := live - {tid};
      }
      killers := killers[i := -1];
    }

    method EndTask(tid: int, ghost k: Kernel)
      requires Objects(k.mem, k.tasks) && 0 <= tid < |tasks|
      modifies mem, mem.table, tasks[tid], tasks[tid].blocks
      ensures FollowedEach(k.mem, KillList(k, tid)) ==>
        var r := Kill(Solo(k.mem, k.tasks[tid]), 0);
        |r.tasks| == 1 && Objects(r.mem, k.tasks[tid := r.tasks[0]])
      ensures !FollowedEach(k.mem, KillList(k, tid)) ==> mem.Broken()
    {
      hide Sound, AsMem, Kill, FollowedEach;
      KillSolo(k, tid);
      var _ := tasks[tid].End(mem);
    }
  }

  method NewSlot() returns (slot: TaskSlot)
    ensures fresh(slot) && fresh(slot.blocks) && fresh(slot.table)
    ensures slot.Shaped() && !slot.used && slot.allocable
  {
    var blocks := new u32[MAX_TASK_MEMORY_BLOCK_COUNT](_ => 0);
    var table := new u32[CR3_LENGTH](_ => 0);
    slot := new TaskSlot(blocks, table);
  }

  /** The loop of `TskmgrInit` over the slots. */
  method BootSlots() returns (slots: seq<TaskSlot>, ghost views: seq<Task>)
    ensures |slots| == |views| == MAX_TASK_COUNT && AllApart(slots)
    ensures forall i :: 0 <= i < |slots| ==> views[i] == slots[i].View()
    ensures forall i :: 0 <= i < |slots| ==> !slots[i].used && slots[i].allocable
    ensures forall i :: 0 <= i < |slots| ==>
      fresh(slots[i]) && fresh(slots[i].blocks) && fresh(slots[i].table)
  {
    slots, views := [], [];
    while |slots| < MAX_TASK_COUNT
      invariant |slots| == |views| <= MAX_TASK_COUNT && AllApart(slots)
      invariant forall i :: 0 <= i < |slots| ==> views[i] == slots[i].View()
      invariant forall i :: 0 <= i < |slots| ==> !slots[i].used && slots[i].allocable
      invariant forall i :: 0 <= i < |slots| ==>
        fresh(slots[i]) && fresh(slots[i].blocks) && fresh(slots[i].table)
    {
      var slot := NewSlot();
      slots, views := slots + [slot], views + [slot.View()];
    }
  }

  /** A booted machine: `MemInit` and `TskmgrInit`.  Every run of the specification starts here. */
  method Boot(size: nat) returns (manager: TaskManager, ghost k: Kernel)
    requires size > 0 && Wrap(size - 1) >= ALLOC_START
    ensures manager.Holds(k) && Booted(k, manager.mem.memoryLimit + 1)
    ensures manager.mem.memoryLimit == Wrap(size - 1)
  {
    hide Sound, AsMem, Init;
    var slots;
    ghost var views;
    slots, views := BootSlots();
    var mem := new MemoryManager(size);
    manager := new TaskManager(slots, mem);
    k := Kernel(mem.Contents(), views, {}, []);
  }

  ghost predicate OneTable(k: Kernel, tid: int) {
    UsedTask(k, tid) ==>
      IsTable(k.tasks[tid].table) && |k.tasks[tid].spans| == |k.tasks[tid].blocks|
  }

  lemma ImageFits(appLen: nat)
    requires appLen <= MAX_APP_LEN
    ensures ImageLength(appLen) > 0
  {
  }

  /** When the lists can follow the rest of a creation. */
  lemma FollowedCases(m: Mem, appLen: nat)
    requires appLen <= MAX_APP_LEN
    ensures var image := Alloc(m, ImageLength(appLen));
      LaunchFollowed(m, appLen)
      <==> (image.1.Some? && Alloc(image.0, PAGEDT_LENGTH).1.None? ==>
              Followed(image.0, image.1.value))
  {
    hide Alloc, Followed, ImageLength;
  }

  /** Creating a task in a free slot: without a system-call stack nothing happens. */
  lemma CreateCases(m: Mem, task: Task, appLen: nat)
    requires !task.used && task.allocable && appLen <= MAX_APP_LEN
    ensures var p := Alloc(m, STACK_LENGTH);
      var r := Create(Solo(m, task), appLen);
      if p.1.None? then r == (Solo(m, task), -1) && CreateFollowed(Solo(m, task), appLen)
      else
        && r == Launch(Solo(p.0, task.(stack := p.1.value)), 0, appLen)
        && (CreateFollowed(Solo(m, task), appLen) <==> LaunchFollowed(p.0, appLen))
  {
    hide Alloc, Launch, LaunchFollowed;
    assert FreeSlot([task], 0) == 0;
    assert Solo(m, task).tasks[0] == task;
    forall x: Task
      ensures [task][0 := x] == [x]
    {
    }
  }

  /** The three outcomes of the rest of a creation. */
  lemma LaunchCases(m: Mem, task: Task, appLen: nat)
    requires appLen <= MAX_APP_LEN
    ensures var r := Launch(Solo(m, task), 0, appLen);
      var begun := task.(used := true, appLen := appLen);
      var image := Alloc(m, ImageLength(appLen));
      if image.1.None? then r == (Kernel(m, [begun.(addr := 0)], {}, []), -1)
      else
        var cleared := begun.(addr := image.1.value, blocks := NoBlocks());
        var dir := Alloc(image.0, PAGEDT_LENGTH);
        if dir.1.None? then
          r == (Kernel(Free(image.0, image.1.value).0, [cleared.(pagedt := 0)], {}, []), -1)
        else
          r == (Kernel(dir.0,
                       [cleared.(pagedt := dir.1.value,
                                 table := TaskTable(appLen, image.1.value, dir.1.value))],
                       {0}, []), 0)
  {
    hide Alloc, Free, TaskTable, ImageLength;
    assert Solo(m, task).tasks[0] == task && {} + {0} == {0};
    forall x: Task
      ensures [task][0 := x] == [x]
    {
    }
  }

  lemma CreateSolo(k: Kernel, appLen: nat)
    ensures appLen > MAX_APP_LEN || FreeSlot(k.tasks, 0) == -1 ==> CreateFollowed(k, appLen)
    ensures appLen > MAX_APP_LEN ==> Create(k, appLen) == (k, -1)
    ensures appLen <= MAX_APP_LEN && FreeSlot(k.tasks, 0) == -1 ==> Create(k, appLen) == (k, -1)
    ensures appLen <= MAX_APP_LEN && FreeSlot(k.tasks, 0) != -1 ==>
      var tid := FreeSlot(k.tasks, 0);
      var r := Create(Solo(k.mem, k.tasks[tid]), appLen);
      && |r.0.tasks| == 1
      && Create(k, appLen) ==
         (Kernel(r.0.mem, k.tasks[tid := r.0.tasks[0]],
                 if r.1 == -1 then k.live else k.live + {tid}, k.killers),
          if r.1 == -1 then -1 else tid)
      && (CreateFollowed(k, appLen) <==> CreateFollowed(Solo(k.mem, k.tasks[tid]), appLen))
  {
    hide Alloc, Launch, LaunchFollowed;
    var tid := FreeSlot(k.tasks, 0);
    if tid != -1 && appLen <= MAX_APP_LEN {
      assert FreeSlot([k.tasks[tid]], 0) == 0;
      assert k.tasks[tid := k.tasks[tid]] == k.tasks;
      if Alloc(k.mem, STACK_LENGTH).1.Some? {
        var (mem0, p) := Alloc(k.mem, STACK_LENGTH);
        var task := k.tasks[tid].(stack := p.value);
        var k' := Stacked(k, tid, mem0, p.value);
        assert [k.tasks[tid]][0 := task] == [task];
        assert Stacked(Solo(k.mem, k.tasks[tid]), 0, mem0, p.value) == Solo(mem0, task);
        LaunchSolo(k', tid, appLen);
        var r := Launch(Solo(mem0, task), 0, appLen);
        assert k'.tasks[tid := r.0.tasks[0]] == k.tasks[tid := r.0.tasks[0]];
      }
    }
  }

  lemma LaunchSolo(k: Kernel, tid: int, appLen: nat)
    requires 0 <= tid < |k.tasks| && appLen <= MAX_APP_LEN
    ensures var r := Launch(Solo(k.mem, k.tasks[tid]), 0, appLen);
      && |r.0.tasks| == 1
      && Launch(k, tid, appLen) ==
         (Kernel(r.0.mem, k.tasks[tid := r.0.tasks[0]],
                 if r.1 == -1 then k.live else k.live + {tid}, k.killers),
          if r.1 == -1 then -1 else tid)
  {
    hide Alloc, Free, TaskTable, ImageLength;
  }

  lemma AllocSolo(k: Kernel, tid: int, size: u32)
    requires OneTable(k, tid)
    ensures !UsedTask(k, tid) ==> AllocMemory(k, tid, size) == (k, 0)
    ensures UsedTask(k, tid) ==>
      var r := AllocMemory(Solo(k.mem, k.tasks[tid]), 0, size);
      && |r.0.tasks| == 1
      && AllocMemory(k, tid, size) ==
         (k.(mem := r.0.mem, tasks := k.tasks[tid := r.0.tasks[0]]), r.1)
  {
    hide FindPages, Mapped, Alloc, FreeBlockSlot;
    if UsedTask(k, tid) {
      var solo := Solo(k.mem, k.tasks[tid]);
      assert solo.tasks[0] == k.tasks[tid] && UsedTask(solo, 0);
      var r := AllocMemory(solo, 0, size);
      if r.0 == solo {
        assert k.(mem := solo.mem, tasks := k.tasks[tid := k.tasks[tid]]) == k;
      }
    }
  }

  lemma FreeSolo(k: Kernel, tid: int, address: u32)
    requires OneTable(k, tid)
    ensures !UsedTask(k, tid) ==> FreeMemory(k, tid, address) == k && MemoryFollowed(k, tid, address)
    ensures UsedTask(k, tid) ==>
      var r := FreeMemory(Solo(k.mem, k.tasks[tid]), 0, address);
      && |r.tasks| == 1
      && FreeMemory(k, tid, address) == k.(mem := r.mem, tasks := k.tasks[tid := r.tasks[0]])
      && (MemoryFollowed(k, tid, address)
          <==> MemoryFollowed(Solo(k.mem, k.tasks[tid]), 0, address))
  {
    hide Translate, Freed, Free, BlockSize, Forget, Followed;
  }

  lemma UserSolo(k: Kernel, tid: int, address: u32)
    requires OneTable(k, tid)
    ensures !UsedTask(k, tid) ==> UserFree(k, tid, address) == (k, false) && UserFollowed(k, tid, address)
    ensures UsedTask(k, tid) ==>
      var r := UserFree(Solo(k.mem, k.tasks[tid]), 0, address);
      && |r.0.tasks| == 1
      && UserFree(k, tid, address) == (k.(mem := r.0.mem, tasks := k.tasks[tid := r.0.tasks[0]]), r.1)
      && (UserFollowed(k, tid, address)
          <==> UserFollowed(Solo(k.mem, k.tasks[tid]), 0, address))
  {
    hide Translate, Freed, Free, BlockSize, PlaceOf, Followed, PagesOf;
    if UsedTask(k, tid) {
      assert k.tasks[tid := k.tasks[tid]] == k.tasks;
    }
  }

  lemma KillSolo(k: Kernel, tid: int)
    requires 0 <= tid < |k.tasks|
    ensures var r := Kill(Solo(k.mem, k.tasks[tid]), 0);
      && |r.tasks| == 1
      && Kill(k, tid) ==
         k.(mem := r.mem, tasks := k.tasks[tid := r.tasks[0]], live := k.live - {tid})
  {
    hide FreeEach;
  }

  lemma FreeEachStep(s: Mem, ps: seq<u32>)
    requires ps != []
    ensures FreeEach(s, ps) == FreeEach(if ps[0] == 0 then s else Free(s, ps[0]).0, ps[1..])
    ensures FollowedEach(s, ps) <==>
      && (ps[0] != 0 ==> Followed(s, ps[0]))
      && FollowedEach(if ps[0] == 0 then s else Free(s, ps[0]).0, ps[1..])
  {
  }

  /** No block starts at 0. */
  lemma FreeZero(s: Mem, end: nat)
    requires Inv(s, end)
    ensures Free(s, 0) == (s, false) && Followed(s, 0)
  {
    hide Partition, Weigh;
  }

  lemma FreeEachNone(s: Mem)
    ensures FreeEach(s, []) == s && FollowedEach(s, [])
  {
  }

  /** What the allocator's soundness says about its contents. */
  lemma SoundMeans(h: Lists, end: nat, usedBytes: int)
    requires Sound(h, end, usedBytes)
    ensures Inv(AsMem(h), end)
    ensures AsMem(h).free == [] <==> h.freeHead == NULL
  {
    hide Inv;
    HeadsNull(h);
  }

  /** What `FindFreePages` promises is the search of the specification. */
  lemma FindPagesIs(t: seq<u32>, length: u32, ok: bool, start: u32)
    requires IsTable(t)
    requires length > 0 ==> (ok <==> exists q :: 0 <= q && FreeRun(t, q, PagesOf(length)))
    requires length > 0 && ok ==>
      exists q :: 0 <= q < PAGE_COUNT && LowestRun(t, q, PagesOf(length))
                  && start == PAGE_SIZE * if q == 0 && PagesOf(length) >= 2 then 1 else q
    requires length == 0 ==> (ok <==> exists p :: 0 <= p < PAGE_COUNT && Present(PageEntry(t, p)))
    requires length == 0 && ok ==> start == 0
    ensures FindPages(t, length) == if ok then Some(start) else None
  {
    hide FreeRun;
    if length > 0 && ok {
      var r := PagesOf(length);
      var q :| 0 <= q < PAGE_COUNT && LowestRun(t, q, r)
               && start == PAGE_SIZE * if q == 0 && r >= 2 then 1 else q;
      var found := FindRun(t, 0, r);
      assert found.Some?;
      assert LowestRun(t, found.value, r);
      LowestRunUnique(t, q, found.value, r);
    } else if length > 0 {
      var found := FindRun(t, 0, PagesOf(length));
      assert found.None?;
    }
  }
}
