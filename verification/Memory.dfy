/** The physical memory allocator over its two descriptor tables, updated in place. */
module Memory {
  import opened Machine
  import opened MemorySpec
  import opened MemoryLists
  import opened Sequences

  class MemoryManager {
    const table: array<Mbd>
    var mbdtHead: int       // free blocks
    var mbdtFoot: int
    var umbdtHead: int      // used blocks
    var umbdtFoot: int
    var usedBytes: int
    var memoryLimit: u32
    ghost var freeNodes: seq<int>
    ghost var usedNodes: seq<int>

    ghost function View(): Lists
      reads this, table
    {
      Lists(table[..], mbdtHead, mbdtFoot, umbdtHead, umbdtFoot, freeNodes, usedNodes)
    }

    /** The free list is no list: no nodes are linked from its head to its foot. */
    ghost predicate Broken()
      reads this, table
    {
      forall nodes :: Distinct(nodes) ==> !Links(table[..], mbdtHead, mbdtFoot, nodes)
    }

    ghost predicate Valid()
      reads this, table
    {
      Sound(View(), memoryLimit + 1, usedBytes)
    }

    ghost function Contents(): Mem
      reads this, table
      requires Valid()
    {
      AsMem(View())
    }

    /** `MemInit`, given the size of memory in bytes. */
    constructor (size: nat)
      requires size > 0 && Wrap(size - 1) >= ALLOC_START
      ensures Valid() && memoryLimit == Wrap(size - 1) && Contents() == Init(memoryLimit + 1)
      ensures fresh(table)
    {
      table := new Mbd[2 * MBD_COUNT](_ => Mbd(false, 0, 0, NULL, NULL));
      memoryLimit := Wrap(size - 1);
      usedBytes := ALLOC_START;
      mbdtHead, mbdtFoot, umbdtHead, umbdtFoot := NULL, NULL, NULL, NULL;
      freeNodes, usedNodes := [], [];
      new;
      hide WellFormed, Inv, AsMem, Sound;
      InitTable();
    }

    method InitTable()
      requires table.Length == 2 * MBD_COUNT && forall k :: 0 <= k < table.Length ==> !table[k].used
      requires mbdtHead == mbdtFoot == umbdtHead == umbdtFoot == NULL && freeNodes == usedNodes == []
      requires memoryLimit >= ALLOC_START && usedBytes == ALLOC_START
      modifies this, table
      ensures Valid() && memoryLimit == old(memoryLimit) && Contents() == Init(memoryLimit + 1)
    {
      hide WellFormed, Inv, AsMem, Appended, Init;
      assert !table[0].used;
      ghost var h := View();
      EmptyWellFormed(h);
      var mbd := GetUnusedMBD(0, MBD_COUNT);
      table[mbd] := table[mbd].(used := true);
      table[mbd] := table[mbd].(start := ALLOC_START);
      table[mbd] := table[mbd].(length := memoryLimit - ALLOC_START + 1);
      ghost var m := h.t[mbd].(used := true, start := ALLOC_START, length := memoryLimit - ALLOC_START + 1);
      assert table[..] == h.t[mbd := m];
      var ok;
      ok, mbdtHead, mbdtFoot := AppendMBD(mbdtHead, mbdtFoot, mbd);
      freeNodes := freeNodes + [mbd];
      EnlistFreeWellFormed(h, mbd, m);
      assert View() == EnlistFree(h, mbd, m);
      InitMem(memoryLimit + 1, BlockOf(m));
    }

    /** The first slot of a table whose used flag is clear, or NULL. */
    method GetUnusedMBD(lo: nat, count: nat) returns (p: int)
      requires lo + count <= table.Length
      ensures p == NULL ==> forall k :: lo <= k < lo + count ==> table[k].used
      ensures p != NULL ==> lo <= p < lo + count && !table[p].used && forall k :: lo <= k < p ==> table[k].used
    {
      var ui := 0;
      while ui < count
        invariant 0 <= ui <= count
        invariant forall k :: lo <= k < lo + ui ==> table[k].used
      {
        if !table[lo + ui].used {
          return lo + ui;
        }
        ui := ui + 1;
      }
      return NULL;
    }

    method AppendMBD(head: int, foot: int, mbd: int) returns (ok: bool, head': int, foot': int)
      requires 0 <= mbd < table.Length && (foot != NULL ==> 0 <= foot < table.Length)
      modifies table
      ensures ok == (head == NULL <==> foot == NULL)
      ensures ok ==> table[..] == Appended(old(table[..]), head, foot, mbd) && foot' == mbd
      ensures ok ==> head' == if head == NULL then mbd else head
      ensures !ok ==> table[..] == old(table[..]) && head' == head && foot' == foot
    {
      if head == NULL && foot == NULL {
        head', foot' := mbd, mbd;
        table[mbd] := table[mbd].(prev := NULL);
        table[mbd] := table[mbd].(next := NULL);
        ok := true;
      } else if head != NULL && foot != NULL {
        table[foot] := table[foot].(next := mbd);
        table[mbd] := table[mbd].(prev := foot);
        table[mbd] := table[mbd].(next := NULL);
        head', foot' := head, mbd;
        ok := true;
      } else {
        ok, head', foot' := false, head, foot;
      }
    }

    method RemoveMBD(head: int, foot: int, mbd: int) returns (ok: bool, head': int, foot': int)
      requires 0 <= mbd < table.Length
      requires head == mbd || 0 <= table[mbd].prev < table.Length
      requires foot == mbd || 0 <= table[mbd].next < table.Length
      requires table[mbd].prev != mbd
      modifies table
      ensures ok && table[..] == Removed(old(table[..]), head, foot, mbd)
      ensures head' == RemovedHead(old(table[..]), head, foot, mbd)
      ensures foot' == RemovedFoot(old(table[..]), head, foot, mbd)
    {
      ok, head', foot' := true, head, foot;
      if head == mbd && foot == mbd {
        head', foot' := NULL, NULL;
      } else if head == mbd && foot != mbd {
        table[table[mbd].next] := table[table[mbd].next].(prev := NULL);
        head' := table[mbd].next;
      } else if head != mbd && foot == mbd {
        table[table[mbd].prev] := table[table[mbd].prev].(next := NULL);
        foot' := table[mbd].prev;
      } else {
        table[table[mbd].prev] := table[table[mbd].prev].(next := table[mbd].next);
        table[table[mbd].next] := table[table[mbd].next].(prev := table[mbd].prev);
      }
    }

    /** The tail-split branch of `_MemAllocWithStart` for the free record mbd. */
    method TakeTailOf(mbd: int, umbd: int, length: u32) returns (address: u32)
      requires 0 <= mbd < table.Length && 0 <= umbd < table.Length && mbd != umbd
      requires (umbdtHead == NULL <==> umbdtFoot == NULL) && (umbdtFoot != NULL ==> 0 <= umbdtFoot < table.Length)
      modifies this, table
      ensures address == Wrap(old(table[mbd]).start + old(table[mbd]).length - length)
      ensures table[..] == Appended(
          old(table[..])[mbd := old(table[mbd]).(length := Wrap(old(table[mbd]).length - length))]
                        [umbd := old(table[umbd]).(used := true, start := address, length := length)],
          old(umbdtHead), old(umbdtFoot), umbd)
      ensures umbdtHead == (if old(umbdtHead) == NULL then umbd else old(umbdtHead)) && umbdtFoot == umbd
      ensures mbdtHead == old(mbdtHead) && mbdtFoot == old(mbdtFoot) && memoryLimit == old(memoryLimit)
      ensures freeNodes == old(freeNodes) && usedNodes == old(usedNodes) && usedBytes == old(usedBytes) + length
    {
      ghost var t0 := table[..];
      address := Wrap(table[mbd].start + table[mbd].length - length);
      table[umbd] := table[umbd].(used := true);
      table[umbd] := table[umbd].(start := address);
      table[umbd] := table[umbd].(length := length);
      table[mbd] := table[mbd].(length := Wrap(table[mbd].length - length));
      assert table[..] == t0[mbd := t0[mbd].(length := Wrap(t0[mbd].length - length))]
                            [umbd := t0[umbd].(used := true, start := address, length := length)];
      var ok;
      ok, umbdtHead, umbdtFoot := AppendMBD(umbdtHead, umbdtFoot, umbd);
      usedBytes := usedBytes + length;
    }

    /** The front branch for the free record mbd when some of the block remains. */
    method TakePartOf(mbd: int, umbd: int, length: u32) returns (address: u32)
      requires 0 <= mbd < table.Length && 0 <= umbd < table.Length && mbd != umbd && length < table[mbd].length
      requires (umbdtHead == NULL <==> umbdtFoot == NULL) && (umbdtFoot != NULL ==> 0 <= umbdtFoot < table.Length)
      modifies this, table
      ensures address == old(table[mbd]).start
      ensures table[..] == Appended(
          old(table[..])[mbd := old(table[mbd]).(start := Wrap(address + length), length := old(table[mbd]).length - length)]
                        [umbd := old(table[umbd]).(used := true, start := address, length := length)],
          old(umbdtHead), old(umbdtFoot), umbd)
      ensures umbdtHead == (if old(umbdtHead) == NULL then umbd else old(umbdtHead)) && umbdtFoot == umbd
      ensures mbdtHead == old(mbdtHead) && mbdtFoot == old(mbdtFoot) && memoryLimit == old(memoryLimit)
      ensures freeNodes == old(freeNodes) && usedNodes == old(usedNodes) && usedBytes == old(usedBytes) + length
    {
      ghost var t0 := table[..];
      address := table[mbd].start;
      table[umbd] := table[umbd].(used := true);
      table[umbd] := table[umbd].(start := table[mbd].start);
      table[umbd] := table[umbd].(length := length);
      table[mbd] := table[mbd].(length := table[mbd].length - length);
      table[mbd] := table[mbd].(start := Wrap(table[mbd].start + length));
      assert table[..] == t0[mbd := t0[mbd].(start := Wrap(address + length), length := t0[mbd].length - length)]
                            [umbd := t0[umbd].(used := true, start := address, length := length)];
      var ok;
      ok, umbdtHead, umbdtFoot := AppendMBD(umbdtHead, umbdtFoot, umbd);
      usedBytes := usedBytes + length;
    }

    /** The front branch for the free record mbd when the whole block is taken. */
    method TakeWholeOf(mbd: int, umbd: int, length: u32) returns (address: u32)
      requires 0 <= mbd < table.Length && 0 <= umbd < table.Length && mbd != umbd && length == table[mbd].length
      requires mbdtHead == mbd || 0 <= table[mbd].prev < table.Length
      requires mbdtFoot == mbd || 0 <= table[mbd].next < table.Length
      requires table[mbd].prev != mbd && table[mbd].prev != umbd && table[mbd].next != umbd
      requires (umbdtHead == NULL <==> umbdtFoot == NULL) && (umbdtFoot != NULL ==> 0 <= umbdtFoot < table.Length)
      modifies this, table
      ensures address == old(table[mbd]).start
      ensures var t1 := old(table[..])[mbd := old(table[mbd]).(start := Wrap(address + length), length := 0, used := false)];
              && mbdtHead == RemovedHead(t1, old(mbdtHead), old(mbdtFoot), mbd)
              && mbdtFoot == RemovedFoot(t1, old(mbdtHead), old(mbdtFoot), mbd)
              && table[..] == Appended(
                   Removed(t1, old(mbdtHead), old(mbdtFoot), mbd)
                     [umbd := old(table[umbd]).(used := true, start := address, length := length)],
                   old(umbdtHead), old(umbdtFoot), umbd)
      ensures umbdtHead == (if old(umbdtHead) == NULL then umbd else old(umbdtHead)) && umbdtFoot == umbd
      ensures memoryLimit == old(memoryLimit)
      ensures freeNodes == old(freeNodes) && usedNodes == old(usedNodes) && usedBytes == old(usedBytes) + length
    {
      ghost var t0 := table[..];
      address := table[mbd].start;
      table[umbd] := table[umbd].(used := true);
      table[umbd] := table[umbd].(start := table[mbd].start);
      table[umbd] := table[umbd].(length := length);
      table[mbd] := table[mbd].(length := table[mbd].length - length);
      table[mbd] := table[mbd].(start := Wrap(table[mbd].start + length));
      table[mbd] := table[mbd].(used := false);
      ghost var t1 := t0[mbd := t0[mbd].(start := Wrap(address + length), length := 0, used := false)];
      ghost var u := t0[umbd].(used := true, start := address, length := length);
      assert table[..] == t1[umbd := u];
      var ok;
      ghost var head, foot := mbdtHead, mbdtFoot;
      ok, mbdtHead, mbdtFoot := RemoveMBD(mbdtHead, mbdtFoot, mbd);
      assert table[..] == Removed(t1, head, foot, mbd)[umbd := u];
      ok, umbdtHead, umbdtFoot := AppendMBD(umbdtHead, umbdtFoot, umbd);
      usedBytes := usedBytes + length;
    }

    method AllocTail(mbd: int, umbd: int, length: u32, ghost j: nat) returns (address: u32)
      requires Valid() && j < |freeNodes| && freeNodes[j] == mbd && MBD_COUNT <= umbd < 2 * MBD_COUNT == table.Length
      requires !table[umbd].used
      modifies this, table
      ensures WellFormed(View()) && (AsMem(View()), address) == TakeTail(old(Contents()), j, length)
      ensures memoryLimit == old(memoryLimit)
      ensures Valid() <==> Inv(TakeTail(old(Contents()), j, length).0, memoryLimit + 1)
    {
      hide WellFormed, Inv, AsMem, Appended;
      ghost var h, before := View(), usedBytes;
      HeadsNull(h);
      FreeNode(h, j);
      UnusedSlot(h, umbd);
      ghost var b := BlockOf(h.t[mbd]);
      address := TakeTailOf(mbd, umbd, length);
      usedNodes := usedNodes + [umbd];
      ghost var rest := Block(b.start, Wrap(b.length - length));
      CutSound(h, memoryLimit + 1, before, j, rest, umbd, Block(address, length));
      assert View() == Cut(h, j, rest, umbd, Block(address, length));
    }

    method AllocPart(mbd: int, umbd: int, length: u32, ghost j: nat) returns (address: u32)
      requires Valid() && j < |freeNodes| && freeNodes[j] == mbd && MBD_COUNT <= umbd < 2 * MBD_COUNT == table.Length
      requires j < |Contents().free| && length < Contents().free[j].length
      requires !table[umbd].used && Inv(TakeFront(Contents(), j, length).0, memoryLimit + 1)
      modifies this, table
      ensures Valid() && memoryLimit == old(memoryLimit)
      ensures (Contents(), address) == TakeFront(old(Contents()), j, length)
    {
      hide WellFormed, Inv, AsMem, Appended;
      ghost var h, before := View(), usedBytes;
      HeadsNull(h);
      FreeNode(h, j);
      UnusedSlot(h, umbd);
      ghost var b := BlockOf(h.t[mbd]);
      address := TakePartOf(mbd, umbd, length);
      usedNodes := usedNodes + [umbd];
      ghost var rest := Block(Wrap(b.start + length), b.length - length);
      CutSound(h, memoryLimit + 1, before, j, rest, umbd, Block(address, length));
      assert View() == Cut(h, j, rest, umbd, Block(address, length));
    }

    method AllocWhole(mbd: int, umbd: int, length: u32, ghost j: nat) returns (address: u32)
      requires Valid() && j < |freeNodes| && freeNodes[j] == mbd && MBD_COUNT <= umbd < 2 * MBD_COUNT == table.Length
      requires j < |Contents().free| && length == Contents().free[j].length
      requires !table[umbd].used && Inv(TakeFront(Contents(), j, length).0, memoryLimit + 1)
      modifies this, table
      ensures Valid() && memoryLimit == old(memoryLimit)
      ensures (Contents(), address) == TakeFront(old(Contents()), j, length)
    {
      hide WellFormed, Inv, AsMem, Appended, Removed, RemovedHead, RemovedFoot;
      ghost var h, before := View(), usedBytes;
      HeadsNull(h);
      FreeNode(h, j);
      FreeNeighbours(h, j);
      UnusedSlot(h, umbd);
      address := TakeWholeOf(mbd, umbd, length);
      usedNodes := usedNodes + [umbd];
      freeNodes := RemoveAt(freeNodes, j);
      ghost var rest := Block(Wrap(address + length), 0);
      ResizeWellFormed(h, j, rest);
      ghost var h1 := Resize(h, j, rest);
      assert Unflagged(h1.t, mbd) == h.t[mbd := h.t[mbd].(start := Wrap(address + length), length := 0, used := false)];
      DropFreeWellFormed(h1, j);
      ConsumeSound(h, memoryLimit + 1, before, j, umbd, Block(address, length));
      assert View() == Consume(h, j, umbd, Block(address, length));
    }

    /** The search of `_MemAllocWithStart`: the last fitting record of the free list, or NULL. */
    method FindFit(mStart: u32, length: u32) returns (mbd: int, ghost j: int)
      requires Valid()
      ensures j == LastFit(Contents().free, |Contents().free|, mStart, length)
      ensures mbd == (if j < 0 then NULL else freeNodes[j]) && j < |freeNodes|
    {
      hide WellFormed, Inv, AsMem;
      ghost var s := Contents();
      Ends(View());
      mbd, j := mbdtFoot, |freeNodes| - 1;
      while mbd != NULL
        invariant -1 <= j < |freeNodes|
        invariant mbd == if j < 0 then NULL else freeNodes[j]
        invariant LastFit(s.free, |s.free|, mStart, length) == LastFit(s.free, j + 1, mStart, length)
        decreases j
      {
        FreeNode(View(), j);
        FreePrevNext(View(), j);
        if j > 0 {
          FreeNode(View(), j - 1);
        }
        if table[mbd].start < mStart && Wrap(mStart + length) < Wrap(table[mbd].start + table[mbd].length) {
          return;
        } else if mStart <= table[mbd].start && length <= table[mbd].length {
          return;
        } else {
          mbd, j := table[mbd].prev, j - 1;
        }
      }
      FreeNodeNotNull(View(), j);
    }

    /** `_MemAllocWithStart`; 0 stands for NULL.  The lists stay well formed, and the blocks a
        partition of memory exactly if a tail that is cut off fits its block. */
    method MemAllocWithStart(mStart: u32, length: u32) returns (address: u32)
      requires Valid()
      modifies this, table
      ensures WellFormed(View()) && memoryLimit == old(memoryLimit)
      ensures AsMem(View()) == AllocWithStart(old(Contents()), mStart, length).0
      ensures Valid() <==> TailHolds(old(Contents()), mStart, length)
      ensures address == match AllocWithStart(old(Contents()), mStart, length).1 case None => 0 case Some(a) => a
    {
      hide WellFormed, Inv, AsMem, Appended, Removed, LastFit, TakeTail, TakeFront;
      ghost var h, s, end := View(), Contents(), memoryLimit + 1;
      var aligned := Align4KB(length);
      var mbd;
      ghost var j;
      mbd, j := FindFit(mStart, aligned);
      if mbd == NULL {
        FreeNodeNotNull(h, j);
        return 0;
      }
      FreeNodeNotNull(h, j);
      FreeNode(h, j);
      FullTables(h);
      var umbd := GetUnusedMBD(MBD_COUNT, MBD_COUNT);
      if umbd == NULL {
        return 0;
      }
      AllocKeepsInvIff(s, end, mStart, length);
      if table[mbd].start < mStart && Wrap(mStart + aligned) < Wrap(table[mbd].start + table[mbd].length) {
        address := AllocTail(mbd, umbd, aligned, j);
      } else if aligned < table[mbd].length {
        address := AllocPart(mbd, umbd, aligned, j);
      } else {
        address := AllocWhole(mbd, umbd, aligned, j);
      }
    }

    method MemAlloc(length: u32) returns (address: u32)
      requires Valid()
      modifies this, table
      ensures Valid() && memoryLimit == old(memoryLimit)
      ensures Contents() == Alloc(old(Contents()), length).0
      ensures address == match Alloc(old(Contents()), length).1 case None => 0 case Some(a) => a
    {
      hide WellFormed, Inv, AsMem, AllocWithStart, TailHolds;
      SoundInv(View(), memoryLimit + 1, usedBytes);
      NoWrapTailHolds(Contents(), memoryLimit + 1, ALLOC_START, length);
      address := MemAllocWithStart(ALLOC_START, length);
    }

    /** The first record of the used list that starts at p, or NULL. */
    method FindUsed(p: u32) returns (umbd: int, ghost i: int)
      requires Valid()
      ensures i == FirstAt(Contents().used, 0, p)
      ensures umbd == (if i < 0 then NULL else usedNodes[i]) && i < |usedNodes| && (umbd == NULL <==> i < 0)
    {
      hide WellFormed, Inv, AsMem;
      ghost var s := Contents();
      Ends(View());
      umbd, i := umbdtHead, 0;
      if usedNodes != [] {
        UsedNeighbours(View(), 0);
      }
      while umbd != NULL
        invariant 0 <= i <= |usedNodes|
        invariant umbd == NULL <==> i == |usedNodes|
        invariant umbd == if i == |usedNodes| then NULL else usedNodes[i]
        invariant FirstAt(s.used, 0, p) == FirstAt(s.used, i, p)
        decreases |usedNodes| - i
      {
        UsedNeighbours(View(), i);
        UsedPrevNext(View(), i);
        if table[umbd].start == p {
          return;
        } else {
          umbd, i := table[umbd].next, i + 1;
          if i < |usedNodes| {
            UsedNeighbours(View(), i);
          }
        }
      }
      i := -1;
    }

    /** `_MemGetBlockSise` */
    method MemGetBlockSise(p: u32) returns (size: u32)
      requires Valid()
      ensures size == BlockSize(Contents(), p)
    {
      var umbd;
      ghost var i;
      umbd, i := FindUsed(p);
      if umbd == NULL {
        return 0;
      }
      UsedNeighbours(View(), i);
      return table[umbd].length;
    }

    /** The used record umbd is copied to the free slot m and leaves the used list. */
    method Detach(umbd: int, m: int)
      requires 0 <= umbd < table.Length && 0 <= m < table.Length && m != umbd
      requires umbdtHead == umbd || 0 <= table[umbd].prev < table.Length
      requires umbdtFoot == umbd || 0 <= table[umbd].next < table.Length
      requires table[umbd].prev != umbd && table[umbd].prev != m && table[umbd].next != m
      modifies table, this`umbdtHead, this`umbdtFoot
      ensures var t1 := old(table[..])[umbd := old(table[umbd]).(used := false)];
              && umbdtHead == RemovedHead(t1, old(umbdtHead), old(umbdtFoot), umbd)
              && umbdtFoot == RemovedFoot(t1, old(umbdtHead), old(umbdtFoot), umbd)
              && table[..] == Removed(t1, old(umbdtHead), old(umbdtFoot), umbd)[m := old(table[umbd])]
    {
      ghost var t0, head, foot := table[..], umbdtHead, umbdtFoot;
      table[m] := table[umbd];
      table[umbd] := table[umbd].(used := false);
      ghost var t1 := t0[umbd := t0[umbd].(used := false)];
      assert table[..] == t1[m := t0[umbd]];
      var ok;
      ok, umbdtHead, umbdtFoot := RemoveMBD(umbdtHead, umbdtFoot, umbd);
      assert table[..] == Removed(t1, head, foot, umbd)[m := t0[umbd]];
    }

    /** The first record of the free list next to the block in slot m, or NULL. */
    method FindNeighbour(m: int) returns (mbd: int, ghost j: int)
      requires 0 <= m < table.Length && Links(table[..], mbdtHead, mbdtFoot, freeNodes)
      ensures j == FirstNeighbour(Blocks(table[..], freeNodes), 0, BlockOf(table[m]))
      ensures mbd == (if j < 0 then NULL else freeNodes[j]) && j < |freeNodes| && (mbd == NULL <==> j < 0)
    {
      ghost var t := table[..];
      ListEnds(t, mbdtHead, mbdtFoot, freeNodes);
      hide Links, Within, Blocks;
      ghost var free, b := Blocks(t, freeNodes), BlockOf(t[m]);
      mbd, j := mbdtHead, 0;
      if freeNodes != [] {
        NodeAt(t, mbdtHead, mbdtFoot, freeNodes, 0);
      }
      while mbd != NULL
        invariant 0 <= j <= |freeNodes|
        invariant mbd == if j == |freeNodes| then NULL else freeNodes[j]
        invariant mbd == NULL <==> j == |freeNodes|
        invariant FirstNeighbour(free, 0, b) == FirstNeighbour(free, j, b)
        decreases |freeNodes| - j
      {
        NodeAt(t, mbdtHead, mbdtFoot, freeNodes, j);
        assert BlockOf(table[mbd]) == free[j] && BlockOf(table[m]) == b;
        if Wrap(table[m].start + table[m].length) == table[mbd].start {
          return;
        } else if Wrap(table[mbd].start + table[mbd].length) == table[m].start {
          return;
        } else {
          mbd, j := table[mbd].next, j + 1;
          if j < |freeNodes| {
            NodeAt(t, mbdtHead, mbdtFoot, freeNodes, j);
          }
        }
      }
      j := -1;
    }

    /** The tail of `_MemFree`: the copied record in slot m is joined to the first
        neighbouring free block, or appended to the free list. */
    method GiveBackRecord(m: int) returns (ghost j: int)
      requires 0 <= m < table.Length && m !in freeNodes && mbdtHead != NULL
      requires Links(table[..], mbdtHead, mbdtFoot, freeNodes)
      modifies table, this`mbdtHead, this`mbdtFoot, this`freeNodes
      ensures j == FirstNeighbour(Blocks(old(table[..]), old(freeNodes)), 0, old(BlockOf(table[m])))
      ensures j < 0 ==>
                && 0 <= old(mbdtFoot) < table.Length && table[..] == Appended(old(table[..]), old(mbdtHead), old(mbdtFoot), m)
                && freeNodes == old(freeNodes) + [m] && mbdtHead == old(mbdtHead) && mbdtFoot == m
      ensures j >= 0 ==>
                && j < |freeNodes| && freeNodes == old(freeNodes) && mbdtHead == old(mbdtHead) && mbdtFoot == old(mbdtFoot)
                && 0 <= freeNodes[j] < table.Length
                && var b := Joined(old(BlockOf(table[freeNodes[j]])), old(BlockOf(table[m])));
                   table[..] == old(table[..])[freeNodes[j] := old(table[freeNodes[j]]).(start := b.start, length := b.length)]
                                              [m := old(table[m]).(used := false)]
    {
      ghost var t := table[..];
      ListEnds(t, mbdtHead, mbdtFoot, freeNodes);
      var mbd;
      mbd, j := FindNeighbour(m);
      hide Links, Blocks, FirstNeighbour;
      if mbd != NULL {
        NodeAt(t, mbdtHead, mbdtFoot, freeNodes, j);
        assert m != mbd;
        if Wrap(table[m].start + table[m].length) == table[mbd].start {
          table[mbd] := table[mbd].(start := table[m].start);
          table[mbd] := table[mbd].(length := Wrap(table[mbd].length + table[m].length));
          table[m] := table[m].(used := false);
        } else {
          table[mbd] := table[mbd].(length := Wrap(table[mbd].length + table[m].length));
          table[m] := table[m].(used := false);
        }
      } else {
        var ok;
        ok, mbdtHead, mbdtFoot := AppendMBD(mbdtHead, mbdtFoot, m);
        freeNodes := freeNodes + [m];
      }
    }

    /** The record copied to slot m goes to the non-empty free list of h less used node i. */
    method ListFree(umbd: int, m: int, ghost h: Lists, ghost i: nat)
      requires Sound(h, memoryLimit + 1, usedBytes)
      requires i < |h.usedNodes| && umbd == h.usedNodes[i] && i < |AsMem(h).used| && 0 <= m < MBD_COUNT && !h.t[m].used
      requires Inv(Mem(GiveBack(AsMem(h).free, AsMem(h).used[i]), RemoveAt(AsMem(h).used, i)), memoryLimit + 1)
      requires 0 <= umbd < |h.t| && View() == DropUsed(h, i).(t := DropUsed(h, i).t[m := h.t[umbd]]) && mbdtHead != NULL
      modifies table, this`mbdtHead, this`mbdtFoot, this`freeNodes
      ensures Sound(View(), memoryLimit + 1, usedBytes - AsMem(h).used[i].length)
      ensures AsMem(View()) == Mem(GiveBack(AsMem(h).free, AsMem(h).used[i]), RemoveAt(AsMem(h).used, i))
      ensures 0 <= umbd < table.Length && BlockOf(table[umbd]) == AsMem(h).used[i]
    {
      hide WellFormed, Inv, AsMem, Removed, RemovedHead, RemovedFoot, Links, Blocks;
      ghost var s, end := AsMem(h), memoryLimit + 1;
      ghost var h1 := DropUsed(h, i);
      Ends(h);
      UsedNeighbours(h, i);
      UnusedSlot(h, m);
      DropUsedWellFormed(h, i);
      assert table.Length == |table[..]| == |h.t|;
      FreeListFrame(h1, m, h.t[umbd]);
      ghost var j := GiveBackRecord(m);
      if j < 0 {
        ReturnSound(h, end, usedBytes, i, m);
        assert View() == Return(h, i, m);
      } else {
        FreeNode(h1, j);
        ghost var b := Joined(s.free[j], s.used[i]);
        MergeSound(h, end, usedBytes, i, m, j, b);
        assert table[..] == Resize(h1, j, b).t[m := h.t[umbd].(used := false)];
        assert View() == Merge(h, i, m, j, b);
      }
    }

    /** The body of `_MemFree` once the used record and a free slot are known. */
    method MoveRecord(umbd: int, m: int, ghost i: nat)
      requires Valid() && i < |usedNodes| && usedNodes[i] == umbd && 0 <= m < MBD_COUNT && table.Length == 2 * MBD_COUNT
      requires !table[m].used && i < |Contents().used|
      requires Inv(Mem(GiveBack(Contents().free, Contents().used[i]), RemoveAt(Contents().used, i)), memoryLimit + 1)
      modifies this, table
      ensures memoryLimit == old(memoryLimit)
      ensures old(mbdtHead) != NULL || old(umbdtHead) == old(umbdtFoot) ==>
                && Valid()
                && Contents() == Mem(GiveBack(old(Contents()).free, old(Contents()).used[i]), RemoveAt(old(Contents()).used, i))
      ensures old(mbdtHead) == NULL && old(umbdtHead) != old(umbdtFoot) ==>
                forall nodes :: Distinct(nodes) ==> !Links(table[..], mbdtHead, mbdtFoot, nodes)
    {
      hide WellFormed, Inv, AsMem, Removed, RemovedHead, RemovedFoot, Links, Blocks;
      ghost var h, s, end, before := View(), Contents(), memoryLimit + 1, usedBytes;
      HeadsNull(h);
      Ends(h);
      UsedNeighbours(h, i);
      UnusedSlot(h, m);
      SoleNode(h, i);
      DropUsedWellFormed(h, i);
      Detach(umbd, m);
      usedNodes := RemoveAt(usedNodes, i);
      ghost var h1 := DropUsed(h, i);
      assert table[..] == h1.t[m := h.t[umbd]];
      if mbdtHead == NULL && mbdtFoot == NULL {
        mbdtHead, mbdtFoot := m, m;
        freeNodes := freeNodes + [m];
        if h.usedHead == h.usedFoot {
          ReturnSound(h, end, before, i, m);
          assert Appended(table[..], NULL, NULL, m) == table[..];
        } else {
          forall nodes | Distinct(nodes)
            ensures !Links(table[..], m, m, nodes)
          {
            StaleLinks(table[..], m, nodes);
          }
        }
      } else {
        ListFree(umbd, m, h, i);
      }
      assert BlockOf(table[umbd]) == s.used[i];
      usedBytes := usedBytes - table[umbd].length;
    }

    /** `_MemFree`.  The lists stay well formed exactly when the free list was not empty or
        the block was the only used one: otherwise the new free node keeps the links it had
        in the used list. */
    method MemFree(p: u32) returns (ok: bool)
      requires Valid()
      modifies this, table
      ensures ok == Free(old(Contents()), p).1 && memoryLimit == old(memoryLimit)
      ensures Followed(old(Contents()), p) ==> Valid() && Contents() == Free(old(Contents()), p).0
      ensures !Followed(old(Contents()), p) ==> Broken()
    {
      hide WellFormed, Inv, AsMem, Removed, RemovedHead, RemovedFoot, Links, Blocks, Merge, EnlistFree, DropUsed;
      ghost var h, s, end := View(), Contents(), memoryLimit + 1;
      FreeKeepsInv(s, end, p);
      FullTables(h);
      HeadsNull(h);
      FollowedByHeads(h, end, usedBytes, p);
      var umbd;
      ghost var i;
      umbd, i := FindUsed(p);
      if umbd == NULL {
        return false;
      }
      var m := GetUnusedMBD(0, MBD_COUNT);
      if m == NULL {
        return false;
      }
      UsedNeighbours(h, i);
      ok := true;
      MoveRecord(umbd, m, i);
    }

    /** Whether a reservation would cut off more than its block holds. */
    method Overcuts(mStart: u32, length: u32) returns (bad: bool)
      requires Valid()
      ensures bad == !TailHolds(Contents(), mStart, length)
    {
      hide WellFormed, Inv, AsMem, LastFit;
      var aligned := Align4KB(length);
      var mbd;
      ghost var j;
      mbd, j := FindFit(mStart, aligned);
      FreeNodeNotNull(View(), j);
      if mbd == NULL {
        return false;
      }
      FreeNode(View(), j);
      FullTables(View());
      var umbd := GetUnusedMBD(MBD_COUNT, MBD_COUNT);
      bad := umbd != NULL && table[mbd].start < mStart
             && Wrap(mStart + aligned) < Wrap(table[mbd].start + table[mbd].length)
             && aligned > table[mbd].length;
    }

    /** A sequence of calls, up to the first that does not keep the lists: a free that they cannot
        follow, after which the free list is a list no more, or a reservation that cuts off more than
        its block holds.  All calls keep them exactly when `KeptRun` says so, and then they hold what
        the specification says. */
    method Perform(ops: seq<Op>) returns (done: nat)
      requires Valid()
      modifies this, table
      ensures done <= |ops| && memoryLimit == old(memoryLimit)
      ensures KeptRun(old(Contents()), ops) ==>
                done == |ops| && Valid() && Contents() == Run(old(Contents()), ops)
      ensures !KeptRun(old(Contents()), ops) ==>
                && 0 < done && KeptRun(old(Contents()), ops[..done - 1])
                && !KeptRun(old(Contents()), ops[..done])
                && (if ops[done - 1].OpFree? then Broken() else !Valid())
    {
      hide Sound, AsMem, Links, Distinct, Followed, TailHolds, Kept, KeptRun, Run, Step;
      ghost var s := Contents();
      RunNone(s, ops);
      done := 0;
      while done < |ops|
        invariant done <= |ops| && Valid() && memoryLimit == old(memoryLimit)
        invariant KeptRun(s, ops[..done]) && Contents() == Run(s, ops[..done])
      {
        RunOneMore(s, ops, done);
        var op := ops[done];
        done := done + 1;
        StepNamed(Contents(), op);
        match op {
          case OpAlloc(length) =>
            var _ := MemAlloc(length);
          case OpReserve(mStart, length) =>
            var bad := Overcuts(mStart, length);
            var _ := MemAllocWithStart(mStart, length);
            if bad {
              return;
            }
          case OpFree(address) =>
            FollowedByHeads(View(), memoryLimit + 1, usedBytes, address);
            var stale := mbdtHead == NULL && umbdtHead != umbdtFoot;
            var ok := MemFree(address);
            if ok && stale {
              return;
            }
        }
      }
      assert ops[..done] == ops;
    }

    /** `MemGetUsedMBDTableInfo` */
    method MemGetUsedMBDTableInfo() returns (total: nat, count: nat, size: u32)
      requires Valid()
      ensures total == MBD_COUNT && count == |Contents().used|
      ensures size == Wrap(usedBytes)
      ensures usedBytes < WORD ==> size == usedBytes
    {
      hide WellFormed, Inv, AsMem, Wrap;
      ghost var t := table[..];
      UsedScan(View(), memoryLimit + 1, usedBytes);
      WrapWord(ALLOC_START);
      WrapWord(usedBytes);
      total, count, size := MBD_COUNT, 0, ALLOC_START;
      var ui := 0;
      while ui < MBD_COUNT
        invariant 0 <= ui <= MBD_COUNT
        invariant count == SlotCount(t, MBD_COUNT, ui)
        invariant size == Wrap(ALLOC_START + SlotBytes(t, MBD_COUNT, ui))
      {
        assert table[MBD_COUNT + ui] == t[MBD_COUNT + ui];
        WrapPlus(ALLOC_START + SlotBytes(t, MBD_COUNT, ui), table[MBD_COUNT + ui].length);
        if table[MBD_COUNT + ui].used {
          size := Wrap(size + table[MBD_COUNT + ui].length);
          count := count + 1;
        }
        ui := ui + 1;
      }
    }

    /** `MemGetMBDTableInfo` */
    method MemGetMBDTableInfo() returns (total: nat, count: nat, size: u32)
      requires Valid()
      ensures total == MBD_COUNT && count == |Contents().free|
      ensures size == memoryLimit + 1 - usedBytes
    {
      hide WellFormed, Inv, AsMem;
      ghost var t := table[..];
      FreeScan(View(), memoryLimit + 1, usedBytes);
      total, count, size := MBD_COUNT, 0, 0;
      var ui := 0;
      while ui < MBD_COUNT
        invariant 0 <= ui <= MBD_COUNT
        invariant count == SlotCount(t, 0, ui)
        invariant size == Wrap(SlotBytes(t, 0, ui))
      {
        assert table[ui] == t[ui];
        if table[ui].used {
          size := Wrap(size + table[ui].length);
          count := count + 1;
        }
        ui := ui + 1;
      }
    }
  }

  lemma WrapWord(n: int)
    ensures 0 <= n < WORD ==> Wrap(n) == n
  {
  }

  lemma WrapPlus(a: int, b: int)
    ensures Wrap(Wrap(a) + b) == Wrap(a + b)
  {
  }

  /** A memory of two pages, handed out as two blocks. */
  method HandOutTwoPages() returns (mm: MemoryManager, b: u32)
    ensures fresh(mm) && fresh(mm.table) && mm.Valid() && mm.mbdtHead == NULL && mm.umbdtHead != mm.umbdtFoot
    ensures Free(mm.Contents(), b).1 && !Followed(mm.Contents(), b)
  {
    hide Alloc, AsMem, WellFormed, Inv;
    mm := new MemoryManager(ALLOC_START + 2 * PAGE_SIZE);
    AllocOnePage(mm.Contents(), Block(ALLOC_START, 2 * PAGE_SIZE));
    var a := mm.MemAlloc(PAGE_SIZE);
    AllocOnePage(mm.Contents(), Block(ALLOC_START + PAGE_SIZE, PAGE_SIZE));
    b := mm.MemAlloc(PAGE_SIZE);
    TwoUsed(mm.View());
    FreeFinds(mm.Contents(), b, 1);
    FollowedByHeads(mm.View(), mm.memoryLimit + 1, mm.usedBytes, b);
  }

  /** A run after which the free list is no list: all memory is handed out in two blocks and
      the second is freed. */
  method FreeIntoEmptyList() returns (mm: MemoryManager, ok: bool)
    ensures ok && fresh(mm) && mm.Broken()
  {
    hide Free, AsMem, WellFormed, Inv, Links, Followed;
    var b;
    mm, b := HandOutTwoPages();
    ok := mm.MemFree(b);
  }

  /** The guards of the source decide whether the lists can follow a free. */
  lemma FollowedByHeads(h: Lists, end: nat, usedBytes: int, p: u32)
    requires Sound(h, end, usedBytes)
    ensures Followed(AsMem(h), p)
       <==> !Free(AsMem(h), p).1 || h.freeHead != NULL || h.usedHead == h.usedFoot
  {
    hide Inv, FirstAt, GiveBack;
    HeadsNull(h);
    if Free(AsMem(h), p).1 {
      SoleNode(h, 0);
      SoleList(h);
    }
  }

  /** A used list of at least one node has exactly one when its head is its foot. */
  lemma SoleList(h: Lists)
    requires WellFormed(h) && h.usedNodes != []
    ensures |AsMem(h).used| == 1 <==> h.usedHead == h.usedFoot
  {
    var nodes := h.usedNodes;
    if |nodes| > 1 {
      assert nodes[0] != nodes[|nodes| - 1];
    }
  }

  lemma SoundInv(h: Lists, end: nat, usedBytes: int)
    requires Sound(h, end, usedBytes)
    ensures Inv(AsMem(h), end)
  {
  }
}
