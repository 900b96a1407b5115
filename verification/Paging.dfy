/** A task's page directory and page tables, one array of 32-bit entries: the directory
    first, then the page tables in linear-address order. */
module Paging {
  import opened Machine

  const TABLE_ITEM_COUNT: nat := 1024
  const PAGE_COUNT: nat := 0x10_0000
  const CR3_LENGTH: nat := TABLE_ITEM_COUNT + PAGE_COUNT

  const US_USER: Bit := 1
  const RW_RWE: Bit := 1
  const RW_RE: Bit := 0
  const P_VALID: Bit := 1
  const P_INVALID: Bit := 0

  type Bit = n: nat | n < 2

  /** The `table_item` macro with the dirty and accessed bits clear. */
  function TableItem(frame: nat, us: Bit, rw: Bit, p: Bit): u32 {
    (frame % PAGE_COUNT) * PAGE_SIZE + us * 4 + rw * 2 + p
  }

  predicate Present(entry: u32) {
    entry % 2 == 1
  }

  predicate Writable(entry: u32) {
    entry / 2 % 2 == 1
  }

  /** Code of the user may use the page. */
  predicate UserPage(entry: u32) {
    entry / 4 % 2 == 1
  }

  function Frame(entry: u32): (f: nat)
    ensures f < PAGE_COUNT
  {
    entry / PAGE_SIZE
  }

  /** The low bits, the user bit and the frame field do not overlap. */
  lemma TableItemFields(frame: nat, us: Bit, rw: Bit, p: Bit)
    ensures var e := TableItem(frame, us, rw, p);
      && (Present(e) <==> p == 1) && (Writable(e) <==> rw == 1) && (UserPage(e) <==> us == 1)
      && Frame(e) == frame % PAGE_COUNT
  {
    var f := frame % PAGE_COUNT;
    LowBits(TableItem(frame, us, rw, p), 512 * f, us, rw, p);
    FrameField(f, us * 4 + rw * 2 + p);
  }

  lemma LowBits(entry: nat, high: nat, us: Bit, rw: Bit, p: Bit)
    requires entry == 8 * high + 4 * us + 2 * rw + p
    ensures entry % 2 == p && entry / 2 % 2 == rw && entry / 4 % 2 == us
  {
    assert entry / 2 == 4 * high + 2 * us + rw;
    assert entry / 4 == 2 * high + us;
  }

  lemma FrameField(f: nat, low: nat)
    requires low < PAGE_SIZE
    ensures (f * PAGE_SIZE + low) / PAGE_SIZE == f
  {
  }

  /** A whole directory with its tables. */
  ghost predicate IsTable(t: seq<u32>) {
    |t| == CR3_LENGTH
  }

  function PageEntry(t: seq<u32>, page: nat): u32
    requires IsTable(t) && page < PAGE_COUNT
  {
    t[TABLE_ITEM_COUNT + page]
  }

  /** The number of pages a length takes, as every function of the file computes it. */
  function PagesOf(length: u32): nat {
    if length / PAGE_SIZE != 0 then
      length / PAGE_SIZE + if length % PAGE_SIZE != 0 then 1 else 0
    else if length != 0 then 1
    else 0
  }

  lemma PagesOfRoundsUp(length: u32)
    ensures (PagesOf(length) - 1) * PAGE_SIZE < length <= PagesOf(length) * PAGE_SIZE || length == 0 == PagesOf(length)
  {
  }

  // ------------------------------------------------------------ translation

  /** `TaskmgrConvertLAddrToPAddr` for a used task: present or not, the entry's frame counts. */
  function Translate(t: seq<u32>, address: u32): u32
    requires IsTable(t)
  {
    Frame(PageEntry(t, address / PAGE_SIZE)) * PAGE_SIZE + address % PAGE_SIZE
  }

  predicate InPages(i: nat, first: nat, n: nat) {
    TABLE_ITEM_COUNT + first <= i < TABLE_ITEM_COUNT + first + n
  }

  function MapEntry(entry: u32, i: nat, first: nat, n: nat, frame: nat, rw: Bit): u32 {
    if InPages(i, first, n) then TableItem(frame + (i - TABLE_ITEM_COUNT - first), US_USER, rw, P_VALID) else entry
  }

  function FreeEntry(entry: u32, i: nat, first: nat, n: nat): u32 {
    if InPages(i, first, n) then TableItem(0, US_USER, RW_RWE, P_INVALID) else entry
  }

  /** n pages from `first` on hold consecutive frames from `frame` on. */
  function MapTable(t: seq<u32>, first: nat, n: nat, frame: nat, rw: Bit): (t': seq<u32>)
    requires IsTable(t)
    ensures IsTable(t')
  {
    seq(|t|, i requires 0 <= i < |t| => MapEntry(t[i], i, first, n, frame, rw))
  }

  /** n pages from `first` on are absent. */
  function FreeTable(t: seq<u32>, first: nat, n: nat): (t': seq<u32>)
    requires IsTable(t)
    ensures IsTable(t')
  {
    seq(|t|, i requires 0 <= i < |t| => FreeEntry(t[i], i, first, n))
  }

  /** What `_PgMapUserPageTableWithPermission` leaves: nothing changes for an unaligned start
      or no pages, and pages past 4 GB are not reached. */
  function Mapped(t: seq<u32>, start: u32, length: u32, realAddress: u32, rw: Bit): (t': seq<u32>)
    requires IsTable(t)
    ensures IsTable(t')
  {
    if start % PAGE_SIZE != 0 then t
    else MapTable(t, start / PAGE_SIZE, Min(PagesOf(length), PAGE_COUNT - start / PAGE_SIZE), realAddress / PAGE_SIZE, rw)
  }

  function Freed(t: seq<u32>, start: u32, length: u32): (t': seq<u32>)
    requires IsTable(t)
    ensures IsTable(t')
  {
    FreeTable(t, start / PAGE_SIZE, Min(PagesOf(length), PAGE_COUNT - start / PAGE_SIZE))
  }

  lemma NextFrame(realAddress: u32, k: nat, rw: Bit)
    ensures TableItem(Wrap(realAddress + PAGE_SIZE * k) / PAGE_SIZE, US_USER, rw, P_VALID)
         == TableItem(realAddress / PAGE_SIZE + k, US_USER, rw, P_VALID)
  {
    assert Wrap(realAddress + PAGE_SIZE * k) / PAGE_SIZE % PAGE_COUNT == (realAddress / PAGE_SIZE + k) % PAGE_COUNT;
  }

  lemma NextAddress(realAddress: u32, k: nat)
    ensures Wrap(realAddress + PAGE_SIZE * 0) == realAddress
    ensures Wrap(Wrap(realAddress + PAGE_SIZE * k) + PAGE_SIZE) == Wrap(realAddress + PAGE_SIZE * (k + 1))
  {
  }

  lemma MapNone(t: seq<u32>, first: nat, frame: nat, rw: Bit)
    requires IsTable(t)
    ensures MapTable(t, first, 0, frame, rw) == t
  {
  }

  lemma MapOneMore(t: seq<u32>, first: nat, n: nat, frame: nat, rw: Bit)
    requires IsTable(t) && first + n < PAGE_COUNT
    ensures MapTable(t, first, n + 1, frame, rw)
         == MapTable(t, first, n, frame, rw)[TABLE_ITEM_COUNT + first + n := TableItem(frame + n, US_USER, rw, P_VALID)]
  {
  }

  lemma FreeNone(t: seq<u32>, first: nat)
    requires IsTable(t)
    ensures FreeTable(t, first, 0) == t
  {
  }

  lemma FreeOneMore(t: seq<u32>, first: nat, n: nat)
    requires IsTable(t) && first + n < PAGE_COUNT
    ensures FreeTable(t, first, n + 1)
         == FreeTable(t, first, n)[TABLE_ITEM_COUNT + first + n := TableItem(0, US_USER, RW_RWE, P_INVALID)]
  {
  }

  /** `_PgMapUserPageTableWithPermission`.  A range that ends exactly at 4 GB is mapped in
      full and yet reported as a failure. */
  method MapUserPageTableWithPermission(cr3: array<u32>, start: u32, length: u32, realAddress: u32, rw: Bit)
    returns (ok: bool)
    requires cr3.Length == CR3_LENGTH
    modifies cr3
    ensures cr3[..] == Mapped(old(cr3[..]), start, length, realAddress, rw)
    ensures ok <==> start % PAGE_SIZE == 0 && length != 0 && start / PAGE_SIZE + PagesOf(length) < PAGE_COUNT
  {
    hide MapTable, TableItem, PagesOf, Wrap;
    ghost var t := cr3[..];
    MapNone(t, start / PAGE_SIZE, realAddress / PAGE_SIZE, rw);
    NextAddress(realAddress, 0);
    PagesOfRoundsUp(length);
    var dirIndex := start / 0x40_0000;
    var pageIndex := start / PAGE_SIZE % TABLE_ITEM_COUNT;
    ghost var first := start / PAGE_SIZE;
    var pageCount := PagesOf(length);
    if start % PAGE_SIZE != 0 || pageCount == 0 {
      return false;
    }
    var address := realAddress;
    var ui := 0;
    while ui < pageCount
      invariant 0 <= ui <= pageCount
      invariant 0 <= dirIndex < TABLE_ITEM_COUNT && 0 <= pageIndex < TABLE_ITEM_COUNT
      invariant dirIndex * TABLE_ITEM_COUNT + pageIndex == first + ui
      invariant address == Wrap(realAddress + PAGE_SIZE * ui)
      invariant cr3[..] == MapTable(t, first, ui, realAddress / PAGE_SIZE, rw)
    {
      NextFrame(realAddress, ui, rw);
      MapOneMore(t, first, ui, realAddress / PAGE_SIZE, rw);
      NextAddress(realAddress, ui);
      cr3[TABLE_ITEM_COUNT + dirIndex * TABLE_ITEM_COUNT + pageIndex] :=
        TableItem(address / PAGE_SIZE, US_USER, rw, P_VALID);
      address := Wrap(address + PAGE_SIZE);
      pageIndex := pageIndex + 1;
      if pageIndex >= TABLE_ITEM_COUNT {
        pageIndex := 0;
        dirIndex := dirIndex + 1;
        if dirIndex >= TABLE_ITEM_COUNT {
          return false;
        }
      }
      ui := ui + 1;
    }
    return true;
  }

  /** `_PgFreePages` */
  method FreePages(cr3: array<u32>, start: u32, length: u32) returns (ok: bool)
    requires cr3.Length == CR3_LENGTH
    modifies cr3
    ensures cr3[..] == Freed(old(cr3[..]), start, length)
    ensures ok <==> start / PAGE_SIZE + PagesOf(length) <= PAGE_COUNT
  {
    hide FreeTable, TableItem, PagesOf;
    ghost var t := cr3[..];
    FreeNone(t, start / PAGE_SIZE);
    var dirIndex := start / 0x40_0000;
    var pageIndex := start / PAGE_SIZE % TABLE_ITEM_COUNT;
    ghost var first := start / PAGE_SIZE;
    var freePageCount := PagesOf(length);
    var ui := 0;
    while ui < freePageCount
      invariant 0 <= ui <= freePageCount
      invariant 0 <= dirIndex && 0 <= pageIndex < TABLE_ITEM_COUNT
      invariant ui < freePageCount ==> dirIndex < TABLE_ITEM_COUNT
      invariant dirIndex * TABLE_ITEM_COUNT + pageIndex == first + ui <= PAGE_COUNT
      invariant cr3[..] == FreeTable(t, first, ui)
    {
      FreeOneMore(t, first, ui);
      cr3[TABLE_ITEM_COUNT + dirIndex * TABLE_ITEM_COUNT + pageIndex] := TableItem(0, US_USER, RW_RWE, P_INVALID);
      pageIndex := pageIndex + 1;
      if pageIndex >= TABLE_ITEM_COUNT {
        pageIndex := 0;
        dirIndex := dirIndex + 1;
        if dirIndex >= TABLE_ITEM_COUNT && ui + 1 < freePageCount {
          return false;
        }
      }
      ui := ui + 1;
    }
    return true;
  }

  // ------------------------------------------------------- finding free pages

  /** The r pages from q on are absent. */
  ghost predicate FreeRun(t: seq<u32>, q: nat, r: nat)
    requires IsTable(t)
  {
    q + r <= PAGE_COUNT && forall p :: q <= p < q + r ==> !Present(PageEntry(t, p))
  }

  /** q starts the lowest run of r absent pages. */
  ghost predicate LowestRun(t: seq<u32>, q: nat, r: nat)
    requires IsTable(t)
  {
    FreeRun(t, q, r) && forall q': nat :: q' < q ==> !FreeRun(t, q', r)
  }

  lemma LowestRunUnique(t: seq<u32>, q: nat, q': nat, r: nat)
    requires IsTable(t) && LowestRun(t, q, r) && LowestRun(t, q', r)
    ensures q == q'
  {
  }

  /** `_PgFindFreePages`.  It succeeds exactly when a long enough run of absent pages exists,
      and then reports the lowest one, except that address 0 doubles as "no run yet": a run of
      two or more pages that starts at page 0 is reported from page 1 on. */
  method FindFreePages(cr3: array<u32>, length: u32) returns (ok: bool, start: u32)
    requires cr3.Length == CR3_LENGTH
    ensures length > 0 ==> (ok <==> exists q :: 0 <= q && FreeRun(cr3[..], q, PagesOf(length)))
    ensures length > 0 && ok ==>
              exists q :: 0 <= q < PAGE_COUNT && LowestRun(cr3[..], q, PagesOf(length))
                          && start == PAGE_SIZE * if q == 0 && PagesOf(length) >= 2 then 1 else q
    ensures length == 0 ==> (ok <==> exists p :: 0 <= p < PAGE_COUNT && Present(PageEntry(cr3[..], p)))
    ensures length == 0 && ok ==> start == 0
  {
    ghost var t := cr3[..];
    var requestPageCount := PagesOf(length);
    var dirIndex, pageIndex, count, startAddress := 0, 0, 0, 0;
    ghost var page := 0;
    while true
      invariant 0 <= dirIndex < TABLE_ITEM_COUNT && 0 <= pageIndex < TABLE_ITEM_COUNT
      invariant page == dirIndex * TABLE_ITEM_COUNT + pageIndex < PAGE_COUNT
      invariant 0 <= count <= page
      invariant requestPageCount > 0 ==> count < requestPageCount
      invariant requestPageCount == 0 ==> count == page
      invariant forall p :: page - count <= p < page ==> !Present(PageEntry(t, p))
      invariant count < page ==> Present(PageEntry(t, page - count - 1))
      invariant requestPageCount > 0 ==> forall q: nat :: q + requestPageCount <= page ==> !FreeRun(t, q, requestPageCount)
      invariant startAddress == if count == 0 then 0 else PAGE_SIZE * if count == page && count >= 2 then 1 else page - count
      decreases PAGE_COUNT - page
    {
      var pageItem := cr3[TABLE_ITEM_COUNT + dirIndex * TABLE_ITEM_COUNT + pageIndex];
      assert pageItem == PageEntry(t, page);
      if pageItem % 2 == P_INVALID {
        if startAddress == 0 {
          startAddress := dirIndex * (TABLE_ITEM_COUNT * PAGE_SIZE) + pageIndex * PAGE_SIZE;
        }
        count := count + 1;
      } else {
        startAddress := 0;
        count := 0;
      }
      if count == requestPageCount {
        if requestPageCount > 0 {
          ghost var q := page + 1 - count;
          assert 0 <= q && FreeRun(cr3[..], q, PagesOf(length));
          assert LowestRun(t, page + 1 - count, requestPageCount);
        } else {
          assert Present(PageEntry(t, page));
        }
        return true, startAddress;
      }
      RunEndsHere(t, page, count, requestPageCount);
      pageIndex := pageIndex + 1;
      page := page + 1;
      if pageIndex >= TABLE_ITEM_COUNT {
        pageIndex := 0;
        dirIndex := dirIndex + 1;
        if dirIndex >= TABLE_ITEM_COUNT {
          return false, 0;
        }
      }
    }
  }

  /** With only `count` absent pages up to and including page, no run of r ends at page. */
  lemma RunEndsHere(t: seq<u32>, page: nat, count: nat, r: nat)
    requires IsTable(t) && page < PAGE_COUNT && count <= page + 1 && (r > 0 ==> count < r)
    requires count < page + 1 ==> Present(PageEntry(t, page - count))
    ensures r > 0 ==> forall q: nat :: q + r == page + 1 ==> !FreeRun(t, q, r)
  {
    forall q: nat | r > 0 && q + r == page + 1
      ensures !FreeRun(t, q, r)
    {
      assert q <= page - count < q + r;
    }
  }

  // ----------------------------------------------------------- main properties

  /** After mapping an aligned range to an aligned base, every address of the rounded-up range
      translates to base plus offset through a present entry with the asked permission, and
      every other entry is unchanged. */
  lemma MapThenTranslate(t: seq<u32>, start: u32, length: u32, base: u32, rw: Bit, offset: nat, other: nat)
    requires IsTable(t) && start % PAGE_SIZE == 0 && base % PAGE_SIZE == 0
    requires start / PAGE_SIZE + PagesOf(length) <= PAGE_COUNT && offset < PagesOf(length) * PAGE_SIZE
    requires other < CR3_LENGTH
    ensures start + offset < WORD
    ensures var t' := Mapped(t, start, length, base, rw);
            && Translate(t', start + offset) == Wrap(base + offset)
            && Present(PageEntry(t', (start + offset) / PAGE_SIZE))
            && UserPage(PageEntry(t', (start + offset) / PAGE_SIZE))
            && (Writable(PageEntry(t', (start + offset) / PAGE_SIZE)) <==> rw == RW_RWE)
            && (!(start / PAGE_SIZE <= other - TABLE_ITEM_COUNT < start / PAGE_SIZE + PagesOf(length)) ==> t'[other] == t[other])
  {
    var k := offset / PAGE_SIZE;
    assert (start + offset) / PAGE_SIZE == start / PAGE_SIZE + k;
    TableItemFields(base / PAGE_SIZE + k, US_USER, rw, P_VALID);
    FrameOffset(base, offset);
  }

  lemma FrameOffset(base: u32, offset: nat)
    requires base % PAGE_SIZE == 0
    ensures (base / PAGE_SIZE + offset / PAGE_SIZE) % PAGE_COUNT * PAGE_SIZE + offset % PAGE_SIZE == Wrap(base + offset)
  {
  }

  /** Freeing what was mapped, with the length rounded up as the allocator records it, makes
      exactly those pages absent; where they were absent before, presence is restored. */
  lemma FreeUndoesMap(t: seq<u32>, start: u32, length: u32, rounded: u32, base: u32, rw: Bit, page: nat)
    requires IsTable(t) && start % PAGE_SIZE == 0 && start / PAGE_SIZE + PagesOf(length) <= PAGE_COUNT
    requires PagesOf(rounded) == PagesOf(length) && page < PAGE_COUNT
    ensures var t' := Freed(Mapped(t, start, length, base, rw), start, rounded);
            && (start / PAGE_SIZE <= page < start / PAGE_SIZE + PagesOf(length) ==> !Present(PageEntry(t', page)))
            && (!(start / PAGE_SIZE <= page < start / PAGE_SIZE + PagesOf(length)) ==> PageEntry(t', page) == PageEntry(t, page))
  {
    TableItemFields(0, US_USER, RW_RWE, P_INVALID);
  }

  // -------------------------------------------------------------- empty tables

  /** The content `_PgCreateEmptyUserPageTable` writes at the aligned address base. */
  function EmptyTable(base: u32): (t: seq<u32>)
    ensures IsTable(t)
  {
    seq(CR3_LENGTH, i requires 0 <= i < CR3_LENGTH =>
      if i < TABLE_ITEM_COUNT then TableItem(Wrap(base + PAGE_SIZE + i * PAGE_SIZE) / PAGE_SIZE, US_USER, RW_RWE, P_VALID)
      else TableItem(i - TABLE_ITEM_COUNT, US_USER, RW_RWE, P_INVALID))
  }

  method CreateEmptyUserPageTable(base: u32) returns (cr3: array<u32>)
    ensures fresh(cr3) && cr3.Length == CR3_LENGTH && cr3[..] == EmptyTable(base)
  {
    cr3 := new u32[CR3_LENGTH];
    var ui := 0;
    while ui < TABLE_ITEM_COUNT
      invariant 0 <= ui <= TABLE_ITEM_COUNT
      invariant forall i :: 0 <= i < ui ==> cr3[i] == EmptyTable(base)[i]
    {
      cr3[ui] := TableItem(Wrap(base + PAGE_SIZE + ui * PAGE_SIZE) / PAGE_SIZE, US_USER, RW_RWE, P_VALID);
      ui := ui + 1;
    }
    ui := 0;
    while ui < TABLE_ITEM_COUNT
      invariant 0 <= ui <= TABLE_ITEM_COUNT
      invariant forall i :: 0 <= i < TABLE_ITEM_COUNT + ui * TABLE_ITEM_COUNT ==> cr3[i] == EmptyTable(base)[i]
    {
      var ui1 := 0;
      while ui1 < TABLE_ITEM_COUNT
        invariant 0 <= ui1 <= TABLE_ITEM_COUNT
        invariant forall i :: 0 <= i < TABLE_ITEM_COUNT + ui * TABLE_ITEM_COUNT + ui1 ==> cr3[i] == EmptyTable(base)[i]
      {
        cr3[TABLE_ITEM_COUNT + ui * TABLE_ITEM_COUNT + ui1] :=
          TableItem(ui * TABLE_ITEM_COUNT + ui1, US_USER, RW_RWE, P_INVALID);
        ui1 := ui1 + 1;
      }
      ui := ui + 1;
    }
  }

  /** The processor's walk (section 4.3 of the Intel SDM Volume 3A): directory entry, then
      table entry, each at four bytes. */
  function WalkAddress(directoryEntry: u32, address: u32): nat {
    Frame(directoryEntry) * PAGE_SIZE + 4 * (address / PAGE_SIZE % TABLE_ITEM_COUNT)
  }

  /** The walk through a directory whose entries are those of the empty table finds the very entry
      that the kernel's index arithmetic uses, whatever was mapped since, and the directory itself
      forbids nothing. */
  lemma WalkFindsEntry(t: seq<u32>, base: u32, address: u32)
    requires IsTable(t) && base % PAGE_SIZE == 0 && base + 4 * CR3_LENGTH <= WORD
    requires forall d :: 0 <= d < TABLE_ITEM_COUNT ==> t[d] == EmptyTable(base)[d]
    ensures address / 0x40_0000 < TABLE_ITEM_COUNT && Present(t[address / 0x40_0000])
    ensures Writable(t[address / 0x40_0000]) && UserPage(t[address / 0x40_0000])
    ensures WalkAddress(t[address / 0x40_0000], address) == base + 4 * (TABLE_ITEM_COUNT + address / PAGE_SIZE)
  {
    var d := address / 0x40_0000;
    EmptyDirectory(base, d);
    WalkArithmetic(base, address);
    hide EmptyTable;
  }

  lemma EmptyDirectory(base: u32, d: nat)
    requires base % PAGE_SIZE == 0 && base + 4 * CR3_LENGTH <= WORD && d < TABLE_ITEM_COUNT
    ensures Writable(EmptyTable(base)[d]) && UserPage(EmptyTable(base)[d])
    ensures Present(EmptyTable(base)[d]) && Frame(EmptyTable(base)[d]) == (base + PAGE_SIZE + d * PAGE_SIZE) / PAGE_SIZE
  {
    hide TableItem, Present, Writable, UserPage, Frame;
    var a := base + PAGE_SIZE + d * PAGE_SIZE;
    assert EmptyTable(base)[d] == TableItem(a / PAGE_SIZE, US_USER, RW_RWE, P_VALID) by {
      assert Wrap(a) == a;
    }
    TableItemFields(a / PAGE_SIZE, US_USER, RW_RWE, P_VALID);
    assert a / PAGE_SIZE % PAGE_COUNT == a / PAGE_SIZE;
  }

  lemma EmptyPage(base: u32, p: nat)
    requires p < PAGE_COUNT
    ensures !Present(PageEntry(EmptyTable(base), p)) && Frame(PageEntry(EmptyTable(base), p)) == p
  {
    TableItemFields(p, US_USER, RW_RWE, P_INVALID);
  }

  lemma WalkArithmetic(base: u32, address: u32)
    requires base % PAGE_SIZE == 0
    ensures (base + PAGE_SIZE + address / 0x40_0000 * PAGE_SIZE) / PAGE_SIZE * PAGE_SIZE
              + 4 * (address / PAGE_SIZE % TABLE_ITEM_COUNT)
         == base + 4 * (TABLE_ITEM_COUNT + address / PAGE_SIZE)
  {
    assert address / PAGE_SIZE / TABLE_ITEM_COUNT == address / 0x40_0000;
  }
}
