/** The physical memory allocator as a function on two lists of blocks: what
    `MemAlloc` and `MemFree` do to the free list and to the used list, and the
    invariants every run keeps.  Module Memory refines it with linked lists. */
module MemorySpec {
  import opened Machine

  const ALLOC_START: u32 := 0x0100_0000
  // Descriptors per table: 1 MB of packed 17-byte records.
  const MBD_COUNT: nat := 61680

  datatype Block = Block(start: u32, length: u32) {
    function End(): nat {
      start + length
    }

    predicate Contains(a: int) {
      start <= a < End()
    }
  }

  /** The blocks of the free list and of the used list, in list order. */
  datatype Mem = Mem(free: seq<Block>, used: seq<Block>)

  function Align4KB(n: u32): u32 {
    if n % PAGE_SIZE == 0 then n else Wrap(n + (PAGE_SIZE - n % PAGE_SIZE))
  }

  function RemoveAt<T>(s: seq<T>, i: nat): (r: seq<T>)
    requires i < |s|
  {
    s[..i] + s[i + 1..]
  }

  // ------------------------------------------------------------- allocation

  predicate TailFits(b: Block, mStart: u32, length: u32) {
    b.start < mStart && Wrap(mStart + length) < Wrap(b.start + b.length)
  }

  predicate FrontFits(b: Block, mStart: u32, length: u32) {
    mStart <= b.start && length <= b.length
  }

  predicate Fits(b: Block, mStart: u32, length: u32) {
    TailFits(b, mStart, length) || FrontFits(b, mStart, length)
  }

  /** The last of the first n free blocks that fits, or -1: the search runs from the foot. */
  function LastFit(free: seq<Block>, n: nat, mStart: u32, length: u32): (j: int)
    requires n <= |free|
    ensures -1 <= j < n
    ensures j >= 0 ==> Fits(free[j], mStart, length)
    ensures forall k :: j < k < n ==> !Fits(free[k], mStart, length)
  {
    if n == 0 then -1
    else if Fits(free[n - 1], mStart, length) then n - 1
    else LastFit(free, n - 1, mStart, length)
  }

  function TakeTail(s: Mem, j: nat, length: u32): (Mem, u32)
    requires j < |s.free|
  {
    var b := s.free[j];
    var address := Wrap(b.start + b.length - length);
    (Mem(s.free[j := Block(b.start, Wrap(b.length - length))], s.used + [Block(address, length)]), address)
  }

  function TakeFront(s: Mem, j: nat, length: u32): (Mem, u32)
    requires j < |s.free| && length <= s.free[j].length
  {
    var b := s.free[j];
    var free' :=
      if b.length == length then RemoveAt(s.free, j)
      else s.free[j := Block(Wrap(b.start + length), b.length - length)];
    (Mem(free', s.used + [Block(b.start, length)]), b.start)
  }

  /** `_MemAllocWithStart`: the memory afterwards and the address, if any. */
  function AllocWithStart(s: Mem, mStart: u32, length: u32): (Mem, Option<u32>) {
    var aligned := Align4KB(length);
    var j := LastFit(s.free, |s.free|, mStart, aligned);
    if j < 0 || |s.used| >= MBD_COUNT then (s, None)
    else
      var (s', address) :=
        if TailFits(s.free[j], mStart, aligned) then TakeTail(s, j, aligned) else TakeFront(s, j, aligned);
      (s', Some(address))
  }

  function Alloc(s: Mem, length: u32): (Mem, Option<u32>) {
    AllocWithStart(s, ALLOC_START, length)
  }

  // ------------------------------------------------------------------- free

  /** The first block of the list that starts at p, or -1. */
  function FirstAt(bs: seq<Block>, i: nat, p: u32): (j: int)
    requires i <= |bs|
    ensures j == -1 || i <= j < |bs|
    ensures j >= 0 ==> bs[j].start == p
    ensures forall k :: i <= k < (if j < 0 then |bs| else j) ==> bs[k].start != p
    decreases |bs| - i
  {
    if i == |bs| then -1
    else if bs[i].start == p then i
    else FirstAt(bs, i + 1, p)
  }

  predicate JustBefore(b: Block, f: Block) {
    Wrap(b.start + b.length) == f.start
  }

  /** The first free block next to b, or -1. */
  function FirstNeighbour(free: seq<Block>, i: nat, b: Block): (j: int)
    requires i <= |free|
    ensures j == -1 || i <= j < |free|
    ensures j >= 0 ==> JustBefore(b, free[j]) || JustBefore(free[j], b)
    ensures forall k :: i <= k < (if j < 0 then |free| else j) ==> !JustBefore(b, free[k]) && !JustBefore(free[k], b)
    decreases |free| - i
  {
    if i == |free| then -1
    else if JustBefore(b, free[i]) || JustBefore(free[i], b) then i
    else FirstNeighbour(free, i + 1, b)
  }

  function Joined(f: Block, b: Block): Block {
    if JustBefore(b, f) then Block(b.start, Wrap(f.length + b.length))
    else Block(f.start, Wrap(f.length + b.length))
  }

  /** The free list after b comes back: joined to one neighbour, or appended. */
  function GiveBack(free: seq<Block>, b: Block): seq<Block> {
    var j := FirstNeighbour(free, 0, b);
    if j < 0 then free + [b] else free[j := Joined(free[j], b)]
  }

  /** `_MemFree`: the memory afterwards and the success flag. */
  function Free(s: Mem, p: u32): (Mem, bool) {
    var i := FirstAt(s.used, 0, p);
    if i < 0 || |s.free| >= MBD_COUNT then (s, false)
    else (Mem(GiveBack(s.free, s.used[i]), RemoveAt(s.used, i)), true)
  }

  function BlockSize(s: Mem, p: u32): u32 {
    var i := FirstAt(s.used, 0, p);
    if i < 0 then 0 else s.used[i].length
  }

  /** `MemInit`: one free block from ALLOC_START to the end of memory. */
  function Init(end: nat): Mem
    requires ALLOC_START <= end <= WORD
  {
    Mem([Block(ALLOC_START, end - ALLOC_START)], [])
  }

  // ---------------------------------------------------------------- weights

  /** The total weight of a list of blocks. */
  ghost function Weigh(bs: seq<Block>, w: Block -> nat): nat {
    if bs == [] then 0 else w(bs[0]) + Weigh(bs[1..], w)
  }

  /** Weighs 1 when the block holds the address. */
  ghost function At(a: int): Block -> nat {
    (b: Block) => if b.Contains(a) then 1 else 0
  }

  ghost function Bytes(): Block -> nat {
    (b: Block) => b.length
  }

  lemma {:induction false} WeighConcat(xs: seq<Block>, ys: seq<Block>, w: Block -> nat)
    ensures Weigh(xs + ys, w) == Weigh(xs, w) + Weigh(ys, w)
  {
    if xs == [] {
      assert xs + ys == ys;
    } else {
      assert (xs + ys)[1..] == xs[1..] + ys;
      WeighConcat(xs[1..], ys, w);
    }
  }

  lemma WeighOne(b: Block, w: Block -> nat)
    ensures Weigh([b], w) == w(b)
  {
    assert [b][1..] == [];
  }

  lemma WeighSplit(bs: seq<Block>, i: nat, w: Block -> nat)
    requires i < |bs|
    ensures Weigh(bs, w) == Weigh(bs[..i], w) + w(bs[i]) + Weigh(bs[i + 1..], w)
  {
    assert bs == bs[..i] + bs[i..];
    WeighConcat(bs[..i], bs[i..], w);
  }

  lemma WeighRemove(bs: seq<Block>, i: nat, w: Block -> nat)
    requires i < |bs|
    ensures Weigh(RemoveAt(bs, i), w) == Weigh(bs, w) - w(bs[i])
  {
    WeighSplit(bs, i, w);
    WeighConcat(bs[..i], bs[i + 1..], w);
  }

  lemma WeighUpdate(bs: seq<Block>, i: nat, b: Block, w: Block -> nat)
    requires i < |bs|
    ensures Weigh(bs[i := b], w) == Weigh(bs, w) - w(bs[i]) + w(b)
  {
    WeighSplit(bs, i, w);
    var bs' := bs[i := b];
    WeighSplit(bs', i, w);
    assert bs'[..i] == bs[..i] && bs'[i + 1..] == bs[i + 1..];
  }

  lemma WeighAppend(bs: seq<Block>, b: Block, w: Block -> nat)
    ensures Weigh(bs + [b], w) == Weigh(bs, w) + w(b)
  {
    WeighConcat(bs, [b], w);
    WeighOne(b, w);
  }

  // -------------------------------------------------------------- invariants

  ghost function Cover(s: Mem, a: int): nat {
    Weigh(s.free, At(a)) + Weigh(s.used, At(a))
  }

  ghost function TotalBytes(s: Mem): nat {
    Weigh(s.free, Bytes()) + Weigh(s.used, Bytes())
  }

  ghost predicate InBounds(bs: seq<Block>, end: nat) {
    forall k :: 0 <= k < |bs| ==> ALLOC_START <= bs[k].start && bs[k].End() <= end
  }

  /** Every address from ALLOC_START to the end of memory lies in exactly one block
      and no other address lies in any. */
  ghost predicate Partition(s: Mem, end: nat) {
    forall a: int :: Cover(s, a) == if ALLOC_START <= a < end then 1 else 0
  }

  ghost predicate Inv(s: Mem, end: nat) {
    && end <= WORD
    && |s.free| <= MBD_COUNT
    && |s.used| <= MBD_COUNT
    && InBounds(s.free, end)
    && InBounds(s.used, end)
    && Partition(s, end)
    && ALLOC_START <= end
    && TotalBytes(s) == end - ALLOC_START
  }

  ghost predicate NoneEmpty(bs: seq<Block>) {
    forall k :: 0 <= k < |bs| ==> bs[k].length > 0
  }

  ghost predicate NoEmptyBlock(s: Mem) {
    NoneEmpty(s.free) && NoneEmpty(s.used)
  }

  ghost predicate Aligned(s: Mem) {
    && (forall k :: 0 <= k < |s.free| ==> s.free[k].start % PAGE_SIZE == 0)
    && (forall k :: 0 <= k < |s.used| ==> s.used[k].start % PAGE_SIZE == 0 && s.used[k].length % PAGE_SIZE == 0)
  }

  lemma Align4KBRounds(n: u32)
    ensures Align4KB(n) % PAGE_SIZE == 0
    ensures n <= 0xFFFF_F000 ==> n <= Align4KB(n) < n + PAGE_SIZE
    ensures Align4KB(n) == 0 <==> n == 0 || n > 0xFFFF_F000
  {
  }

  // ------------------------------------------------- what allocation keeps

  /** The start addresses for which the source's 32-bit sum does not wrap. */
  ghost predicate NoWrap(mStart: u32, length: u32) {
    mStart == ALLOC_START || mStart + Align4KB(length) < WORD
  }

  /** The free block whose tail an allocation cuts off, if it cuts one, holds the length. */
  predicate TailHolds(s: Mem, mStart: u32, length: u32) {
    var aligned := Align4KB(length);
    var j := LastFit(s.free, |s.free|, mStart, aligned);
    j >= 0 && |s.used| < MBD_COUNT && TailFits(s.free[j], mStart, aligned) ==>
      aligned <= s.free[j].length
  }

  lemma NoWrapTailHolds(s: Mem, end: nat, mStart: u32, length: u32)
    requires Inv(s, end) && NoWrap(mStart, length)
    ensures TailHolds(s, mStart, length)
  {
    var aligned := Align4KB(length);
    var j := LastFit(s.free, |s.free|, mStart, aligned);
    if j >= 0 && TailFits(s.free[j], mStart, aligned) {
      TailRoom(s.free[j], mStart, aligned);
    }
  }

  lemma TakeTailWeighs(s: Mem, j: nat, length: u32, w: Block -> nat)
    requires j < |s.free| && length <= s.free[j].length && s.free[j].End() < WORD
    requires var b := s.free[j];
             w(b) == w(Block(b.start, b.length - length)) + w(Block(b.start + b.length - length, length))
    ensures var s' := TakeTail(s, j, length).0;
            Weigh(s'.free, w) + Weigh(s'.used, w) == Weigh(s.free, w) + Weigh(s.used, w)
  {
    var b := s.free[j];
    WeighUpdate(s.free, j, Block(b.start, b.length - length), w);
    WeighAppend(s.used, Block(b.start + b.length - length, length), w);
  }

  lemma TakeFrontWeighs(s: Mem, j: nat, length: u32, w: Block -> nat)
    requires j < |s.free| && length <= s.free[j].length && s.free[j].End() <= WORD
    requires var b := s.free[j];
             if length == b.length then true
             else w(b) == w(Block(b.start, length)) + w(Block(b.start + length, b.length - length))
    ensures var s' := TakeFront(s, j, length).0;
            Weigh(s'.free, w) + Weigh(s'.used, w) == Weigh(s.free, w) + Weigh(s.used, w)
  {
    var b := s.free[j];
    WeighAppend(s.used, Block(b.start, length), w);
    if length == b.length {
      WeighRemove(s.free, j, w);
      assert b == Block(b.start, length);
    } else {
      WeighUpdate(s.free, j, Block(b.start + length, b.length - length), w);
    }
  }

  lemma TailRoom(b: Block, mStart: u32, length: u32)
    requires TailFits(b, mStart, length) && mStart + length < WORD && b.End() <= WORD
    ensures length < b.length && b.End() < WORD
    ensures mStart < b.End() - length
  {
  }

  lemma TakeTailKeepsInv(s: Mem, end: nat, j: nat, mStart: u32, length: u32)
    requires Inv(s, end) && j < |s.free| && |s.used| < MBD_COUNT
    requires TailFits(s.free[j], mStart, length) && length <= s.free[j].length
    ensures Inv(TakeTail(s, j, length).0, end)
  {
    hide Weigh;
    var b := s.free[j];
    assert b.End() < WORD;
    var s' := TakeTail(s, j, length).0;
    assert s'.free == s.free[j := Block(b.start, b.length - length)];
    assert s'.used == s.used + [Block(b.start + b.length - length, length)];
    forall a: int
      ensures Cover(s', a) == Cover(s, a)
    {
      TakeTailWeighs(s, j, length, At(a));
    }
    TakeTailWeighs(s, j, length, Bytes());
  }

  /** Cutting off more than the block holds leaves a block that reaches out of memory. */
  lemma TakeTailBreaksInv(s: Mem, end: nat, j: nat, mStart: u32, length: u32)
    requires Inv(s, end) && j < |s.free|
    requires TailFits(s.free[j], mStart, length) && length > s.free[j].length
    ensures !Inv(TakeTail(s, j, length).0, end)
  {
    hide Weigh, Partition;
    var b := s.free[j];
    var s' := TakeTail(s, j, length).0;
    assert s'.free[j] == Block(b.start, WORD + b.length - length);
    assert s'.used[|s.used|] == Block(Wrap(b.start + b.length - length), length);
    assert InBounds(s'.free, end) ==> s'.free[j].End() <= end;
    assert InBounds(s'.used, end) ==>
      ALLOC_START <= s'.used[|s.used|].start && s'.used[|s.used|].End() <= end;
  }

  lemma TakeFrontKeepsInv(s: Mem, end: nat, j: nat, length: u32)
    requires Inv(s, end) && j < |s.free| && |s.used| < MBD_COUNT && length <= s.free[j].length
    ensures Inv(TakeFront(s, j, length).0, end)
  {
    hide Weigh;
    var s' := TakeFront(s, j, length).0;
    forall a: int
      ensures Cover(s', a) == Cover(s, a)
    {
      TakeFrontWeighs(s, j, length, At(a));
    }
    TakeFrontWeighs(s, j, length, Bytes());
  }

  /** Any allocation keeps the blocks a partition of memory exactly if the block whose tail it
      would cut off holds the length; a start and a length whose 32-bit sum wraps can pick one that
      does not. */
  lemma AllocKeepsInvIff(s: Mem, end: nat, mStart: u32, length: u32)
    requires Inv(s, end)
    ensures Inv(AllocWithStart(s, mStart, length).0, end) <==> TailHolds(s, mStart, length)
  {
    hide Inv;
    var aligned := Align4KB(length);
    var j := LastFit(s.free, |s.free|, mStart, aligned);
    if j >= 0 && |s.used| < MBD_COUNT {
      if !TailFits(s.free[j], mStart, aligned) {
        TakeFrontKeepsInv(s, end, j, aligned);
      } else if aligned <= s.free[j].length {
        TakeTailKeepsInv(s, end, j, mStart, aligned);
      } else {
        TakeTailBreaksInv(s, end, j, mStart, aligned);
      }
    }
  }

  lemma AllocKeepsInv(s: Mem, end: nat, mStart: u32, length: u32)
    requires Inv(s, end) && NoWrap(mStart, length)
    ensures Inv(AllocWithStart(s, mStart, length).0, end)
  {
    NoWrapTailHolds(s, end, mStart, length);
    AllocKeepsInvIff(s, end, mStart, length);
  }

  /** A reservation that breaks the partition: from boot, the last page of the address space plus
      more than all of memory. */
  lemma ReserveCanWrap(end: nat)
    requires ALLOC_START + 2 * PAGE_SIZE <= end < WORD - ALLOC_START && end % PAGE_SIZE == 0
    ensures !TailHolds(Init(end), WORD - PAGE_SIZE, end - ALLOC_START + PAGE_SIZE)
  {
    var length := end - ALLOC_START + PAGE_SIZE;
    assert Align4KB(length) == length;
    assert TailFits(Init(end).free[0], WORD - PAGE_SIZE, length);
    assert LastFit(Init(end).free, 1, WORD - PAGE_SIZE, length) == 0;
  }

  // ------------------------------------------------------- what freeing keeps

  lemma JoinedIsUnion(f: Block, b: Block)
    requires JustBefore(b, f) || JustBefore(f, b)
    requires ALLOC_START <= f.start && f.End() <= WORD && ALLOC_START <= b.start && b.End() <= WORD
    requires f.length + b.length < WORD
    ensures Joined(f, b).End() <= WORD && Joined(f, b).length == f.length + b.length
    ensures Joined(f, b).start == if JustBefore(b, f) then b.start else f.start
    ensures JustBefore(b, f) ==> b.End() == f.start
    ensures !JustBefore(b, f) ==> f.End() == b.start
    ensures forall a: int :: At(a)(Joined(f, b)) == At(a)(f) + At(a)(b)
  {
  }

  lemma GiveBackWeighs(free: seq<Block>, b: Block, w: Block -> nat)
    requires var j := FirstNeighbour(free, 0, b); j >= 0 ==> w(Joined(free[j], b)) == w(free[j]) + w(b)
    ensures Weigh(GiveBack(free, b), w) == Weigh(free, w) + w(b)
  {
    var j := FirstNeighbour(free, 0, b);
    if j < 0 {
      WeighAppend(free, b, w);
    } else {
      WeighUpdate(free, j, Joined(free[j], b), w);
    }
  }

  lemma FreeKeepsInv(s: Mem, end: nat, p: u32)
    requires Inv(s, end)
    ensures Inv(Free(s, p).0, end)
  {
    hide Weigh, FirstAt, FirstNeighbour;
    var i := FirstAt(s.used, 0, p);
    if i >= 0 && |s.free| < MBD_COUNT {
      var b := s.used[i];
      var s' := Free(s, p).0;
      var j := FirstNeighbour(s.free, 0, b);
      if j >= 0 {
        JoinFits(s, end, i, j);
        JoinedIsUnion(s.free[j], b);
      }
      forall a: int
        ensures Cover(s', a) == Cover(s, a)
      {
        GiveBackWeighs(s.free, b, At(a));
        WeighRemove(s.used, i, At(a));
      }
      GiveBackWeighs(s.free, b, Bytes());
      WeighRemove(s.used, i, Bytes());
    }
  }

  // --------------------------------------------------- reading the invariants

  lemma WeighTwice(bs: seq<Block>, i: nat, j: nat, w: Block -> nat)
    requires i < j < |bs|
    ensures Weigh(bs, w) >= w(bs[i]) + w(bs[j])
  {
    WeighSplit(bs, i, w);
    WeighSplit(bs[i + 1..], j - i - 1, w);
  }

  /** No two blocks, free or used, share an address. */
  lemma BlocksDisjoint(s: Mem, end: nat, i: nat, j: nat, a: int)
    requires Inv(s, end) && i < |s.free + s.used| && j < |s.free + s.used|
    requires (s.free + s.used)[i].Contains(a) && (s.free + s.used)[j].Contains(a)
    ensures i == j
  {
    WeighConcat(s.free, s.used, At(a));
    assert Cover(s, a) <= 1;
    if i < j {
      WeighTwice(s.free + s.used, i, j, At(a));
    } else if j < i {
      WeighTwice(s.free + s.used, j, i, At(a));
    }
  }

  lemma {:induction false} WeighPositive(bs: seq<Block>, w: Block -> nat)
    ensures Weigh(bs, w) > 0 <==> exists k :: 0 <= k < |bs| && w(bs[k]) > 0
  {
    if bs != [] {
      WeighPositive(bs[1..], w);
      if Weigh(bs[1..], w) > 0 {
        var k :| 0 <= k < |bs[1..]| && w(bs[1..][k]) > 0;
        assert bs[k + 1] == bs[1..][k];
      }
      if k :| 0 < k < |bs| && w(bs[k]) > 0 {
        assert bs[1..][k - 1] == bs[k];
      }
    }
  }

  /** The blocks cover exactly the range from ALLOC_START to the end of memory. */
  lemma BlocksCover(s: Mem, end: nat, a: int)
    requires Inv(s, end)
    ensures ALLOC_START <= a < end <==> exists k :: 0 <= k < |s.free + s.used| && (s.free + s.used)[k].Contains(a)
  {
    WeighConcat(s.free, s.used, At(a));
    assert Cover(s, a) == if ALLOC_START <= a < end then 1 else 0;
    WeighPositive(s.free + s.used, At(a));
    if ALLOC_START <= a < end {
      var k :| 0 <= k < |s.free + s.used| && At(a)((s.free + s.used)[k]) > 0;
    }
    if k :| 0 <= k < |s.free + s.used| && (s.free + s.used)[k].Contains(a) {
      assert At(a)((s.free + s.used)[k]) > 0;
    }
  }

  /** With no empty block, a used block is known by its start. */
  lemma UsedStartsUnique(s: Mem, end: nat, i: nat, j: nat)
    requires Inv(s, end) && NoEmptyBlock(s)
    requires i < |s.used| && j < |s.used| && s.used[i].start == s.used[j].start
    ensures i == j
  {
    var n := |s.free|;
    assert (s.free + s.used)[n + i] == s.used[i] && (s.free + s.used)[n + j] == s.used[j];
    BlocksDisjoint(s, end, n + i, n + j, s.used[i].start);
  }

  // --------------------------------------------------- emptiness and alignment

  /** The allocation fails, or its length rounds to a positive one and does not cut off a tail that
      is the whole block. */
  predicate LeavesNoEmpty(s: Mem, mStart: u32, length: u32) {
    var aligned := Align4KB(length);
    var j := LastFit(s.free, |s.free|, mStart, aligned);
    || j < 0 || |s.used| >= MBD_COUNT
    || (aligned > 0 && !(TailFits(s.free[j], mStart, aligned) && aligned == s.free[j].length))
  }

  /** An allocation, with or without an explicit start, leaves no empty block exactly then. */
  lemma AllocEmptyIff(s: Mem, mStart: u32, length: u32)
    requires NoEmptyBlock(s)
    ensures NoEmptyBlock(AllocWithStart(s, mStart, length).0) <==> LeavesNoEmpty(s, mStart, length)
  {
    hide Align4KB, LastFit, Fits, TailFits;
    var aligned := Align4KB(length);
    var j := LastFit(s.free, |s.free|, mStart, aligned);
    if j >= 0 && |s.used| < MBD_COUNT {
      var s' := AllocWithStart(s, mStart, length).0;
      assert s'.used[|s.used|].length == aligned;
      if TailFits(s.free[j], mStart, aligned) {
        assert s'.free[j].length == Wrap(s.free[j].length - aligned);
      }
    }
  }

  /** Without a start: the length is positive and at most 0xFFFFF000, or no descriptor is left, or no
      block is free. */
  lemma MemAllocEmptyIff(s: Mem, end: nat, length: u32)
    requires Inv(s, end)
    ensures LeavesNoEmpty(s, ALLOC_START, length)
       <==> 0 < length <= 0xFFFF_F000 || |s.used| == MBD_COUNT || s.free == []
  {
    hide Partition, Weigh, Align4KB;
    Align4KBRounds(length);
    var j := LastFit(s.free, |s.free|, ALLOC_START, Align4KB(length));
    if j >= 0 {
      assert !TailFits(s.free[j], ALLOC_START, Align4KB(length));
    }
    if s.free != [] && Align4KB(length) == 0 {
      assert Fits(s.free[0], ALLOC_START, 0);
    }
  }

  lemma JoinFits(s: Mem, end: nat, i: nat, j: nat)
    requires Inv(s, end) && i < |s.used| && j < |s.free|
    ensures s.free[j].length + s.used[i].length < WORD
  {
    hide Weigh;
    WeighSplit(s.free, j, Bytes());
    WeighSplit(s.used, i, Bytes());
  }

  lemma GiveBackNoneEmpty(s: Mem, end: nat, i: nat)
    requires Inv(s, end) && NoEmptyBlock(s) && i < |s.used|
    ensures NoneEmpty(GiveBack(s.free, s.used[i]))
  {
    var j := FirstNeighbour(s.free, 0, s.used[i]);
    if j >= 0 {
      JoinFits(s, end, i, j);
      hide Inv;
      JoinedIsUnion(s.free[j], s.used[i]);
    }
  }

  lemma FreeKeepsNoEmptyBlock(s: Mem, end: nat, p: u32)
    requires Inv(s, end) && NoEmptyBlock(s)
    ensures NoEmptyBlock(Free(s, p).0)
  {
    var i := FirstAt(s.used, 0, p);
    if i >= 0 {
      GiveBackNoneEmpty(s, end, i);
    }
  }

  /** `MemAlloc` keeps every start and every used length on a 4 KB boundary. */
  lemma AllocKeepsAligned(s: Mem, end: nat, length: u32)
    requires Inv(s, end) && Aligned(s)
    ensures Aligned(Alloc(s, length).0)
    ensures Alloc(s, length).1.Some? ==> Alloc(s, length).1.value % PAGE_SIZE == 0
  {
    hide Align4KB, LastFit, Partition, Weigh, Wrap;
    var aligned := Align4KB(length);
    Align4KBRounds(length);
    var j := LastFit(s.free, |s.free|, ALLOC_START, aligned);
    if j >= 0 && |s.used| < MBD_COUNT {
      var b := s.free[j];
      assert !TailFits(b, ALLOC_START, aligned);
      if aligned < b.length {
        RestAligned(b, aligned);
      }
    }
  }

  lemma RestAligned(b: Block, length: u32)
    requires b.start % PAGE_SIZE == 0 && length % PAGE_SIZE == 0
    requires length < b.length && b.End() <= WORD
    ensures Wrap(b.start + length) % PAGE_SIZE == 0
  {
  }

  lemma FreeKeepsAligned(s: Mem, end: nat, p: u32)
    requires Inv(s, end) && Aligned(s)
    ensures Aligned(Free(s, p).0)
  {
  }

  /** A reserved block cut from the tail of a free block is aligned exactly when that block's end is. */
  lemma TailAlignedIff(s: Mem, end: nat, mStart: u32, length: u32)
    requires Inv(s, end) && Aligned(s) && AllocWithStart(s, mStart, length).1.Some?
    ensures var b := s.free[LastFit(s.free, |s.free|, mStart, Align4KB(length))];
            (AllocWithStart(s, mStart, length).1.value % PAGE_SIZE == 0
             <==> (TailFits(b, mStart, Align4KB(length)) ==> b.End() % PAGE_SIZE == 0))
  {
    hide Align4KB, LastFit, Partition, Weigh, Wrap, TailFits;
    var aligned := Align4KB(length);
    Align4KBRounds(length);
    var b := s.free[LastFit(s.free, |s.free|, mStart, aligned)];
    if TailFits(b, mStart, aligned) {
      TailAddress(b, aligned);
    }
  }

  lemma TailAddress(b: Block, length: u32)
    requires length % PAGE_SIZE == 0
    ensures Wrap(b.start + b.length - length) % PAGE_SIZE == 0 <==> b.End() % PAGE_SIZE == 0
  {
    var x := b.End() - length;
    assert Wrap(x) == x - x / WORD * WORD;
    SamePage(x, x / WORD * 0x10_0000);
    SamePage(b.End(), length / PAGE_SIZE);
  }

  lemma SamePage(x: int, n: int)
    ensures (x - PAGE_SIZE * n) % PAGE_SIZE == x % PAGE_SIZE
  {
  }

  // ------------------------------------------------------ when they succeed

  /** The free list after `n` bytes were cut from the start of its block `k`. */
  ghost predicate CutFront(free: seq<Block>, free': seq<Block>, k: nat, n: nat)
    requires k < |free|
  {
    if n == free[k].length then free' == free[..k] + free[k + 1..]
    else
      && |free'| == |free| && (forall i :: 0 <= i < |free| && i != k ==> free'[i] == free[i])
      && free'[k].start == free[k].start + n && free'[k].length == free[k].length - n
  }

  /** `MemAlloc` fails exactly when no free block holds the rounded length or no
      descriptor is left; otherwise it hands out the start of one, the last of the list that holds
      it, and what is left of it keeps its place in the list. */
  lemma AllocExact(s: Mem, end: nat, length: u32)
    requires Inv(s, end)
    ensures var (s', r) := Alloc(s, length);
            var n := Align4KB(length);
            && (r.None? <==> |s.used| == MBD_COUNT || forall k :: 0 <= k < |s.free| ==> s.free[k].length < n)
            && (r.None? ==> s' == s)
            && (r.Some? ==>
                  && s'.used == s.used + [Block(r.value, n)]
                  && ALLOC_START <= r.value
                  && exists k :: 0 <= k < |s.free| && s.free[k].start == r.value && n <= s.free[k].length
                                 && CutFront(s.free, s'.free, k, n)
                                 && forall i :: k < i < |s.free| ==> s.free[i].length < n)
  {
    hide Partition, Weigh;
    var j := LastFit(s.free, |s.free|, ALLOC_START, Align4KB(length));
    if j >= 0 {
      assert FrontFits(s.free[j], ALLOC_START, Align4KB(length));
      forall i | j < i < |s.free|
        ensures s.free[i].length < Align4KB(length)
      {
        assert !Fits(s.free[i], ALLOC_START, Align4KB(length));
      }
      assert |s.used| < MBD_COUNT ==>
        CutFront(s.free, Alloc(s, length).0.free, j, Align4KB(length));
    } else {
      forall k | 0 <= k < |s.free|
        ensures s.free[k].length < Align4KB(length)
      {
        assert !Fits(s.free[k], ALLOC_START, Align4KB(length));
      }
    }
  }

  /** A reservation whose tail fits lies at one end of one free block, the others stay in place, and
      it is not below its start if the 32-bit sum does not wrap. */
  lemma ReserveInside(s: Mem, end: nat, mStart: u32, length: u32)
    requires Inv(s, end) && TailHolds(s, mStart, length) && AllocWithStart(s, mStart, length).1.Some?
    ensures var (s', r) := AllocWithStart(s, mStart, length);
            var n := Align4KB(length);
            && (NoWrap(mStart, length) ==> mStart <= r.value) && s'.used == s.used + [Block(r.value, n)]
            && exists k :: 0 <= k < |s.free| &&
                 n <= s.free[k].length
                 && ((s.free[k].start == r.value && CutFront(s.free, s'.free, k, n))
                     || (r.value + n == s.free[k].End()
                         && s'.free == s.free[k := Block(s.free[k].start, s.free[k].length - n)]))
  {
    hide Partition, Weigh;
    var n := Align4KB(length);
    var j := LastFit(s.free, |s.free|, mStart, n);
    if TailFits(s.free[j], mStart, n) {
      if NoWrap(mStart, length) {
        TailRoom(s.free[j], mStart, n);
      }
      assert s.free[j].End() < WORD;
    } else {
      assert CutFront(s.free, AllocWithStart(s, mStart, length).0.free, j, n);
    }
  }

  /** Used block i left the used list and its addresses became free. */
  ghost predicate Returned(s: Mem, s': Mem, i: nat)
    requires i < |s.used|
  {
    && s'.used == RemoveAt(s.used, i)
    && forall a: int :: Weigh(s'.free, At(a)) == Weigh(s.free, At(a)) + At(a)(s.used[i])
  }

  /** The linked lists can follow a free: it fails, or there is a free block, or the block is the
      only used one.  Otherwise the source leaves the links of the used list in the new free node,
      and the free list is a list no more. */
  predicate Followed(s: Mem, p: u32) {
    !Free(s, p).1 || s.free != [] || |s.used| == 1
  }

  lemma FollowedIff(s: Mem, p: u32)
    ensures Followed(s, p)
       <==> s.free != [] || |s.used| == 1 || forall k :: 0 <= k < |s.used| ==> s.used[k].start != p
  {
    hide GiveBack;
  }

  lemma FreeReturns(s: Mem, end: nat, p: u32)
    requires Inv(s, end) && Free(s, p).1
    ensures exists i :: 0 <= i < |s.used| && s.used[i].start == p && Returned(s, Free(s, p).0, i)
  {
    hide GiveBack;
    var i := FirstAt(s.used, 0, p);
    var s' := Free(s, p).0;
    FreeKeepsInv(s, end, p);
    forall a: int
      ensures Weigh(s'.free, At(a)) == Weigh(s.free, At(a)) + At(a)(s.used[i])
    {
      assert Cover(s', a) == Cover(s, a);
      WeighRemove(s.used, i, At(a));
    }
    assert Returned(s, s', i);
  }

  /** `MemFree` succeeds exactly on the start of a used block while a descriptor is
      left; then that one block leaves the used list and its addresses become free.  The lists
      follow exactly if a block was free or only one was used or no used block starts there. */
  lemma FreeExact(s: Mem, end: nat, p: u32)
    requires Inv(s, end)
    ensures var (s', ok) := Free(s, p);
            && (ok <==> |s.free| < MBD_COUNT && exists k :: 0 <= k < |s.used| && s.used[k].start == p)
            && (!ok ==> s' == s)
            && (ok ==> exists i :: 0 <= i < |s.used| && s.used[i].start == p && Returned(s, s', i))
    ensures Followed(s, p)
       <==> s.free != [] || |s.used| == 1 || forall k :: 0 <= k < |s.used| ==> s.used[k].start != p
  {
    hide GiveBack, Returned, Partition, Weigh, Followed;
    FollowedIff(s, p);
    if Free(s, p).1 {
      FreeReturns(s, end, p);
    }
  }

  /** Freeing what was just allocated gives back the used list and the free addresses; the lists
      follow exactly if the allocation left a free block or there was no used one. */
  lemma FreeUndoesAlloc(s: Mem, end: nat, length: u32)
    requires Inv(s, end) && NoEmptyBlock(s) && 0 < length <= 0xFFFF_F000
    requires Alloc(s, length).1.Some? && |Alloc(s, length).0.free| < MBD_COUNT
    ensures var (s1, r) := Alloc(s, length);
            var (s2, ok) := Free(s1, r.value);
            && ok && s2.used == s.used && (forall a: int :: Weigh(s2.free, At(a)) == Weigh(s.free, At(a)))
            && (Followed(s1, r.value) <==> s1.free != [] || s.used == [])
  {
    var (s1, r) := Alloc(s, length);
    AllocKeepsInv(s, end, ALLOC_START, length);
    AllocExact(s, end, length);
    AllocEmptyIff(s, ALLOC_START, length);
    MemAllocEmptyIff(s, end, length);
    var n := |s.used|;
    assert s1.used[n].start == r.value;
    var i := FirstAt(s1.used, 0, r.value);
    UsedStartsUnique(s1, end, i, n);
    var s2 := Free(s1, r.value).0;
    assert s2.used == s.used;
    FreeKeepsInv(s1, end, r.value);
    forall a: int
      ensures Weigh(s2.free, At(a)) == Weigh(s.free, At(a))
    {
      assert Cover(s2, a) == Cover(s, a);
    }
  }

  // -------------------------------------------------------------- whole runs

  datatype Op =
    | OpAlloc(length: u32)
    | OpReserve(mStart: u32, length: u32)
    | OpFree(address: u32)

  function Step(s: Mem, op: Op): Mem {
    match op
    case OpAlloc(length) => Alloc(s, length).0
    case OpReserve(mStart, length) => AllocWithStart(s, mStart, length).0
    case OpFree(address) => Free(s, address).0
  }

  function Run(s: Mem, ops: seq<Op>): Mem
    decreases |ops|
  {
    if ops == [] then s else Run(Step(s, ops[0]), ops[1..])
  }

  /** The lists can follow the call, and a tail that it cuts off fits its block. */
  predicate Kept(s: Mem, op: Op) {
    match op
    case OpAlloc(_) => true
    case OpReserve(mStart, length) => TailHolds(s, mStart, length)
    case OpFree(address) => Followed(s, address)
  }

  predicate KeptRun(s: Mem, ops: seq<Op>)
    decreases |ops|
  {
    ops != [] ==> Kept(s, ops[0]) && KeptRun(Step(s, ops[0]), ops[1..])
  }

  /** Each reservation's tail fits its block. */
  predicate TailsHold(s: Mem, ops: seq<Op>)
    decreases |ops|
  {
    ops != [] ==> (ops[0].OpReserve? ==> Kept(s, ops[0])) && TailsHold(Step(s, ops[0]), ops[1..])
  }

  /** No call leaves an empty block. */
  predicate NoneEmptyRun(s: Mem, ops: seq<Op>)
    decreases |ops|
  {
    ops != [] ==>
      && (ops[0].OpAlloc? ==> LeavesNoEmpty(s, ALLOC_START, ops[0].length))
      && (ops[0].OpReserve? ==> LeavesNoEmpty(s, ops[0].mStart, ops[0].length))
      && NoneEmptyRun(Step(s, ops[0]), ops[1..])
  }

  lemma InitInv(end: nat)
    requires ALLOC_START <= end <= WORD
    ensures Inv(Init(end), end) && Aligned(Init(end))
    ensures ALLOC_START < end ==> NoEmptyBlock(Init(end))
  {
    var s := Init(end);
    forall a: int
      ensures Cover(s, a) == if ALLOC_START <= a < end then 1 else 0
    {
      WeighOne(s.free[0], At(a));
    }
    WeighOne(s.free[0], Bytes());
  }

  /** A call keeps the blocks a partition of memory, if its tail fits. */
  lemma StepKeepsInv(s: Mem, end: nat, op: Op)
    requires Inv(s, end) && (op.OpReserve? ==> Kept(s, op))
    ensures Inv(Step(s, op), end)
  {
    hide Inv;
    match op {
      case OpAlloc(length) => AllocKeepsInv(s, end, ALLOC_START, length);
      case OpReserve(mStart, length) => AllocKeepsInvIff(s, end, mStart, length);
      case OpFree(address) => FreeKeepsInv(s, end, address);
    }
  }

  lemma {:induction false} RunKeepsInv(s: Mem, end: nat, ops: seq<Op>)
    requires Inv(s, end) && KeptRun(s, ops)
    ensures Inv(Run(s, ops), end)
    decreases |ops|
  {
    hide Inv, Step;
    if ops != [] {
      StepKeepsInv(s, end, ops[0]);
      RunKeepsInv(Step(s, ops[0]), end, ops[1..]);
    }
  }

  lemma StepKeepsNoEmptyBlock(s: Mem, end: nat, op: Op)
    requires Inv(s, end) && NoEmptyBlock(s)
    requires op.OpAlloc? ==> LeavesNoEmpty(s, ALLOC_START, op.length)
    requires op.OpReserve? ==> LeavesNoEmpty(s, op.mStart, op.length)
    ensures NoEmptyBlock(Step(s, op))
  {
    hide Inv, LeavesNoEmpty, AllocWithStart;
    match op {
      case OpAlloc(length) => AllocEmptyIff(s, ALLOC_START, length);
      case OpReserve(mStart, length) => AllocEmptyIff(s, mStart, length);
      case OpFree(address) => FreeKeepsNoEmptyBlock(s, end, address);
    }
  }

  lemma {:induction false} RunKeepsNoEmptyBlock(s: Mem, end: nat, ops: seq<Op>)
    requires Inv(s, end) && NoEmptyBlock(s) && KeptRun(s, ops) && NoneEmptyRun(s, ops)
    ensures NoEmptyBlock(Run(s, ops))
    decreases |ops|
  {
    hide Inv, NoEmptyBlock, Step, LeavesNoEmpty;
    if ops != [] {
      StepKeepsInv(s, end, ops[0]);
      StepKeepsNoEmptyBlock(s, end, ops[0]);
      RunKeepsNoEmptyBlock(Step(s, ops[0]), end, ops[1..]);
    }
  }

  lemma RunNone(s: Mem, ops: seq<Op>)
    ensures Run(s, ops[..0]) == s && KeptRun(s, ops[..0])
  {
  }

  lemma {:induction false} RunAppend(s: Mem, xs: seq<Op>, op: Op)
    ensures Run(s, xs + [op]) == Step(Run(s, xs), op)
    ensures KeptRun(s, xs + [op])
       <==> KeptRun(s, xs) && Kept(Run(s, xs), op)
    decreases |xs|
  {
    hide Step, Kept;
    if xs == [] {
      assert xs + [op] == [op] && [op][1..] == [];
    } else {
      assert (xs + [op])[0] == xs[0] && (xs + [op])[1..] == xs[1..] + [op];
      RunAppend(Step(s, xs[0]), xs[1..], op);
    }
  }

  lemma {:induction false} KeptPrefix(s: Mem, ops: seq<Op>, n: nat)
    requires n <= |ops| && KeptRun(s, ops)
    ensures KeptRun(s, ops[..n])
    decreases |ops|
  {
    hide Step, Kept;
    if n > 0 {
      KeptPrefix(Step(s, ops[0]), ops[1..], n - 1);
      assert ops[..n][1..] == ops[1..][..n - 1];
    }
  }

  lemma RunOneMore(s: Mem, ops: seq<Op>, n: nat)
    requires n < |ops|
    ensures Run(s, ops[..n + 1]) == Step(Run(s, ops[..n]), ops[n])
    ensures KeptRun(s, ops[..n + 1])
       <==> KeptRun(s, ops[..n]) && Kept(Run(s, ops[..n]), ops[n])
    ensures KeptRun(s, ops) ==> KeptRun(s, ops[..n + 1])
    ensures ops[..|ops|] == ops
  {
    RunAppend(s, ops[..n], ops[n]);
    assert ops[..n + 1] == ops[..n] + [ops[n]];
    if KeptRun(s, ops) {
      KeptPrefix(s, ops, n + 1);
    }
  }

  lemma StepNamed(s: Mem, op: Op)
    ensures op.OpAlloc? ==> Step(s, op) == Alloc(s, op.length).0
    ensures op.OpReserve? ==> Step(s, op) == AllocWithStart(s, op.mStart, op.length).0
    ensures op.OpFree? ==> Step(s, op) == Free(s, op.address).0
    ensures Kept(s, op) <==> match op
      case OpAlloc(_) => true
      case OpReserve(mStart, length) => TailHolds(s, mStart, length)
      case OpFree(address) => Followed(s, address)
  {
  }

  /** From `MemInit` on: after any calls that the lists can follow and whose tails fit, the free and
      used blocks are pairwise disjoint and cover exactly the memory from ALLOC_START to the end; and
      none is empty if no call left an empty one. */
  lemma EveryRunPartitions(end: nat, ops: seq<Op>, i: nat, j: nat, a: int)
    requires ALLOC_START < end <= WORD && KeptRun(Init(end), ops)
    ensures var s := Run(Init(end), ops);
            var blocks := s.free + s.used;
            && (i < j < |blocks| ==> !(blocks[i].Contains(a) && blocks[j].Contains(a)))
            && (ALLOC_START <= a < end <==> exists k :: 0 <= k < |blocks| && blocks[k].Contains(a))
            && (NoneEmptyRun(Init(end), ops) ==> forall k :: 0 <= k < |blocks| ==> blocks[k].length > 0)
  {
    InitInv(end);
    RunKeepsInv(Init(end), end, ops);
    var s := Run(Init(end), ops);
    BlocksCover(s, end, a);
    if i < j < |s.free + s.used| && (s.free + s.used)[i].Contains(a) && (s.free + s.used)[j].Contains(a) {
      BlocksDisjoint(s, end, i, j, a);
    }
    if NoneEmptyRun(Init(end), ops) {
      RunKeepsNoEmptyBlock(Init(end), end, ops);
    }
  }

  // ------------------------------------------- when the free list can run out

  lemma {:induction false} WeighMultiple(bs: seq<Block>)
    requires forall k :: 0 <= k < |bs| ==> bs[k].length % PAGE_SIZE == 0
    ensures Weigh(bs, Bytes()) % PAGE_SIZE == 0
  {
    if bs != [] {
      forall k | 0 <= k < |bs[1..]|
        ensures bs[1..][k].length % PAGE_SIZE == 0
      {
        assert bs[1..][k] == bs[k + 1];
      }
      WeighMultiple(bs[1..]);
    }
  }

  /** Every used block has a rounded length. */
  ghost predicate UsedRounded(s: Mem) {
    forall k :: 0 <= k < |s.used| ==> s.used[k].length % PAGE_SIZE == 0
  }

  lemma StepKeepsRounded(s: Mem, op: Op)
    requires UsedRounded(s)
    ensures UsedRounded(Step(s, op))
  {
    hide LastFit, FirstNeighbour;
    if !op.OpFree? {
      Align4KBRounds(op.length);
    }
  }

  /** When memory does not end on a page boundary some free block remains. */
  lemma SomeFree(s: Mem, end: nat)
    requires Inv(s, end) && UsedRounded(s) && end % PAGE_SIZE != 0
    ensures s.free != []
  {
    WeighMultiple(s.used);
  }

  /** When memory does not end on a page boundary, over every run from boot some free block always
      remains, so the lists can follow every free, whatever tails that fit are cut off. */
  lemma FreeListNeverEmpty(end: nat, ops: seq<Op>)
    requires ALLOC_START <= end <= WORD && end % PAGE_SIZE != 0
    requires TailsHold(Init(end), ops)
    ensures Run(Init(end), ops).free != [] && KeptRun(Init(end), ops)
  {
    InitInv(end);
    RunFollowed(Init(end), end, ops);
  }

  lemma {:induction false} RunFollowed(s: Mem, end: nat, ops: seq<Op>)
    requires Inv(s, end) && UsedRounded(s) && end % PAGE_SIZE != 0
    requires TailsHold(s, ops)
    ensures Run(s, ops).free != [] && KeptRun(s, ops)
    decreases |ops|
  {
    hide Inv, UsedRounded, Step;
    SomeFree(s, end);
    if ops != [] {
      StepKeepsInv(s, end, ops[0]);
      StepKeepsRounded(s, ops[0]);
      RunFollowed(Step(s, ops[0]), end, ops[1..]);
    }
  }

  /** Whole memories that end on a page boundary can be handed out completely. */
  lemma FreeListCanRunOut(end: nat)
    requires ALLOC_START < end <= WORD && end % PAGE_SIZE == 0
    ensures Alloc(Init(end), end - ALLOC_START).0.free == []
    ensures Alloc(Init(end), end - ALLOC_START).1 == Some(ALLOC_START)
  {
    var n := end - ALLOC_START;
    assert Align4KB(n) == n;
    var s := Init(end);
    var b := s.free[0];
    assert !TailFits(b, ALLOC_START, n) && FrontFits(b, ALLOC_START, n);
    assert LastFit(s.free, 1, ALLOC_START, n) == 0;
  }

  /** A request served by the last free block takes its front. */
  lemma AllocFromLast(s: Mem, rest: seq<Block>, b: Block, length: u32)
    requires s.free == rest + [b] && ALLOC_START <= b.start && b.End() < WORD && |s.used| < MBD_COUNT
    requires length % PAGE_SIZE == 0 && length <= b.length
    ensures Alloc(s, length).1 == Some(b.start)
    ensures Alloc(s, length).0.used == s.used + [Block(b.start, length)]
    ensures Alloc(s, length).0.free ==
              rest + if b.length == length then [] else [Block(b.start + length, b.length - length)]
  {
    var n := |rest|;
    assert s.free[n] == b;
    assert Align4KB(length) == length && FrontFits(s.free[n], ALLOC_START, length);
    assert !TailFits(b, ALLOC_START, length);
    assert LastFit(s.free, n + 1, ALLOC_START, length) == n;
    assert RemoveAt(s.free, n) == rest;
  }

  /** A free list of one large enough block serves a one-page request from its front. */
  lemma AllocOnePage(s: Mem, b: Block)
    requires s.free == [b] && b.start >= ALLOC_START && b.length >= PAGE_SIZE && b.End() < WORD && |s.used| < MBD_COUNT
    ensures Alloc(s, PAGE_SIZE).1 == Some(b.start)
    ensures Alloc(s, PAGE_SIZE).0.used == s.used + [Block(b.start, PAGE_SIZE)]
    ensures Alloc(s, PAGE_SIZE).0.free ==
              if b.length == PAGE_SIZE then [] else [Block(b.start + PAGE_SIZE, b.length - PAGE_SIZE)]
  {
    assert s.free == [] + [b];
    AllocFromLast(s, [], b, PAGE_SIZE);
  }

  lemma FreeFinds(s: Mem, p: u32, k: nat)
    requires k < |s.used| && s.used[k].start == p && |s.free| < MBD_COUNT
    ensures Free(s, p).1
  {
  }
}
