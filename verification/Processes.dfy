/**
 process.c: a process's allocation table, process_malloc and process_free.
 */
module Processes {
  import opened Bits
  import opened Memory
  import opened BlockTable
  import opened KernelHeap
  import opened PageMap
  import opened Kernel
  import opened Status

  const MAX_ALLOCATIONS: nat := 1024

  /** PAGING_IS_WRITEABLE | PAGING_IS_PRESENT | PAGING_ACCESS_FROM_ALL */
  const USER_RW: Word := 7

  datatype Allocation = Allocation(ptr: Word, size: Word)

  const EMPTY := Allocation(0, 0)

  /** The first slot that holds ptr, or the length of the table. */
  function FindSlot(allocs: seq<Allocation>, ptr: Word): (i: nat)
    ensures i <= |allocs|
    ensures i < |allocs| ==> allocs[i].ptr == ptr
    ensures forall j :: 0 <= j < i ==> allocs[j].ptr != ptr
  {
    if allocs == [] || allocs[0].ptr == ptr then 0 else 1 + FindSlot(allocs[1..], ptr)
  }

  lemma FindSlotIs(allocs: seq<Allocation>, ptr: Word, i: nat)
    requires i <= |allocs| && (i < |allocs| ==> allocs[i].ptr == ptr)
    requires forall j :: 0 <= j < i ==> allocs[j].ptr != ptr
    ensures FindSlot(allocs, ptr) == i
  {
  }

  /** process_allocation_unjoin. */
  ghost function Unjoined(allocs: seq<Allocation>, ptr: Word): (r: seq<Allocation>)
    ensures |r| == |allocs|
    ensures forall j :: 0 <= j < |allocs| ==> r[j] == if allocs[j].ptr == ptr then EMPTY else allocs[j]
  {
    seq(|allocs|, j requires 0 <= j < |allocs| => if allocs[j].ptr == ptr then EMPTY else allocs[j])
  }

  /** paging_align_address. */
  function AlignAddress(ptr: Word): Word {
    if ptr % PAGE != 0 then (ptr + PAGE - ptr % PAGE) % WORD_LIMIT else ptr
  }

  /** An allocation record inside the heap: a block address and a size that stays in the pool. */
  predicate InPool(a: Allocation) {
    a.ptr % PAGE == 0 && IsBlock(a.ptr) && 1 <= a.size && a.ptr + a.size <= HEAP_BASE + HEAP_SIZE
  }

  lemma PoolRange(a: Allocation)
    requires InPool(a)
    ensures a.size <= WORD_LIMIT - BLOCK_SIZE && Blocks(a.size) >= 1
    ensures AlignAddress(a.ptr + a.size) == a.ptr + Blocks(a.size) * PAGE
    ensures BlockOf(a.ptr) + Blocks(a.size) <= HEAP_BLOCKS
  {
  }

  /** Page a lies in the blocks [s, s + n). */
  predicate InBlocks(s: int, n: int, a: PageAddr) {
    HEAP_BASE + s * BLOCK_SIZE <= a < HEAP_BASE + (s + n) * BLOCK_SIZE
  }

  // ----- What one call does -----

  /** The map with every page of allocation a mapped to itself. */
  ghost function AllocMapped(f: FlatMap, a: Allocation, flags: Word): FlatMap
    requires InPool(a)
  {
    assert a.ptr + Blocks(a.size) * PAGE <= WORD_LIMIT by { PoolRange(a); }
    Mapped(f, a.ptr / PAGE, a.ptr, Blocks(a.size), flags)
  }

  /** Memory changes only in the blocks [s, s + n) and in tables of dir. */
  ghost predicate MallocFrame(m: Mem, m': Mem, dir: PageAddr, s: int, n: int) {
    forall a: PageAddr :: !InBlocks(s, n, a) && (a == dir || !OwnsPage(m, dir, a)) ==> SamePage(m, m', a)
  }

  /** Of n blocks at a, the first size bytes are 0, and the others as they were. */
  ghost predicate Cleared(m: Mem, m': Mem, a: Word, size: Word, n: nat) {
    forall x: Word :: a <= x < a + n * BLOCK_SIZE ==> m'[x] == if x < a + size then 0 else m[x]
  }

  /** process_malloc(size) on a process with page directory dir, as a relation between the states around the call. */
  ghost predicate MallocPost(t: seq<Entry>, m: Mem, dir: PageAddr, allocs: seq<Allocation>, size: Word,
                             t': seq<Entry>, m': Mem, allocs': seq<Allocation>, ptr: Word)
    requires |t| == HEAP_BLOCKS
  {
    var n := Blocks(size);
    var s := FirstFit(t, n);
    var slot := FindSlot(allocs, 0);
    if s < 0 then
      ptr == 0 && t' == t && m' == m && allocs' == allocs
    else
      && FreeRun(t, s, n) && MallocFrame(m, m', dir, s, n) && SameTables(m, m', dir)
      && if slot == |allocs| then
           ptr == 0 && t' == t && allocs' == allocs && Flat(m', dir) == Flat(m, dir)
         else
           && ptr == BlockAddr(s) && t' == Marked(t, s, n) && allocs' == allocs[slot := Allocation(ptr, size)]
           && Flat(m', dir) == Mapped(Flat(m, dir), ptr / PAGE, ptr, n, USER_RW)
           && Cleared(m, m', ptr, size, n)
  }

  /** process_free(ptr). */
  ghost predicate FreePost(t: seq<Entry>, m: Mem, dir: PageAddr, allocs: seq<Allocation>, ptr: Word,
                           t': seq<Entry>, m': Mem, allocs': seq<Allocation>)
    requires forall i :: 0 <= i < |allocs| && allocs[i].ptr != 0 ==> InPool(allocs[i])
    requires ptr != 0
  {
    var slot := FindSlot(allocs, ptr);
    if slot == |allocs| then
      t' == t && m' == m && allocs' == allocs
    else
      assert InPool(allocs[slot]);
      && t' == Freed(t, BlockOf(allocs[slot].ptr)) && allocs' == Unjoined(allocs, ptr)
      && Flat(m', dir) == AllocMapped(Flat(m, dir), allocs[slot], 0)
      && SameTables(m, m', dir) && OnlyTables(m, m', dir)
  }

  class Process {
    const dir: PageAddr
    const chunk: PageAddr
    const allocations: array<Allocation>

    constructor (dir: PageAddr, chunk: PageAddr)
      ensures this.dir == dir && this.chunk == chunk && fresh(allocations) && Valid()
      ensures allocations.Length == 1024 && forall i :: 0 <= i < 1024 ==> allocations[i] == Allocation(0, 0)
    {
      this.dir, this.chunk := dir, chunk;
      allocations := new Allocation[MAX_ALLOCATIONS](_ => EMPTY);
    }

    ghost predicate Valid() {
      allocations.Length == MAX_ALLOCATIONS
    }

    /** process_find_free_allocation_index. */
    method FindFreeAllocationIndex() returns (res: int)
      requires Valid()
      ensures res == var slot := FindSlot(allocations[..], 0); if slot < MAX_ALLOCATIONS then slot else -ENOMEM
    {
      for i := 0 to MAX_ALLOCATIONS
        invariant forall j :: 0 <= j < i ==> allocations[j].ptr != 0
      {
        if allocations[i].ptr == 0 {
          FindSlotIs(allocations[..], 0, i);
          return i;
        }
      }
      FindSlotIs(allocations[..], 0, MAX_ALLOCATIONS);
      return -ENOMEM;
    }

    /** process_get_allocation_by_addr: the slot, or -1. */
    method GetAllocationByAddr(addr: Word) returns (slot: int)
      requires Valid()
      ensures slot == var s := FindSlot(allocations[..], addr); if s < MAX_ALLOCATIONS then s else -1
    {
      for i := 0 to MAX_ALLOCATIONS
        invariant forall j :: 0 <= j < i ==> allocations[j].ptr != addr
      {
        if allocations[i].ptr == addr {
          FindSlotIs(allocations[..], addr, i);
          return i;
        }
      }
      FindSlotIs(allocations[..], addr, MAX_ALLOCATIONS);
      return -1;
    }

    /** process_allocation_unjoin. */
    method AllocationUnjoin(ptr: Word)
      requires Valid()
      modifies allocations
      ensures allocations[..] == Unjoined(old(allocations[..]), ptr)
    {
      for i := 0 to MAX_ALLOCATIONS
        invariant forall j :: 0 <= j < i ==>
          allocations[j] == if old(allocations[j]).ptr == ptr then EMPTY else old(allocations[j])
        invariant forall j :: i <= j < MAX_ALLOCATIONS ==> allocations[j] == old(allocations[j])
      {
        if allocations[i].ptr == ptr {
          allocations[i] := EMPTY;
        }
      }
    }

    /** The middle of process_malloc: find a slot, map the new blocks into the process and record them. */
    method Enter(k: Machine, ptr: Word, size: Word) returns (ok: bool)
      requires Valid() && k.Valid() && DirOk(k.mem, dir) && InPool(Allocation(ptr, size))
      modifies k`mem, allocations
      ensures k.Valid() && k.Table() == old(k.Table())
      ensures var slot := FindSlot(old(allocations[..]), 0);
              if slot == MAX_ALLOCATIONS then
                !ok && k.mem == old(k.mem) && allocations[..] == old(allocations[..])
              else
                && ok && allocations[..] == old(allocations[..])[slot := Allocation(ptr, size)]
                && Flat(k.mem, dir) == Mapped(Flat(old(k.mem), dir), ptr / PAGE, ptr, Blocks(size), USER_RW)
                && SameTables(old(k.mem), k.mem, dir) && OnlyTables(old(k.mem), k.mem, dir)
    {
      hide Mapped; hide TableAddr; hide EntryOf; hide OwnsPage; hide AlignAddress;
      var index := FindFreeAllocationIndex();
      if index < 0 {
        return false;
      }
      PoolRange(Allocation(ptr, size));
      assert (AlignAddress(ptr + size) - ptr) / PAGE == Blocks(size);
      var res := k.PagingMapTo(dir, ptr, ptr, AlignAddress(ptr + size), USER_RW);
      if res < 0 {
        return false;
      }
      allocations[index] := Allocation(ptr, size);
      ok := true;
    }

    /** process_malloc. */
    method Malloc(k: Machine, size: Word) returns (ptr: Word)
      requires Valid() && k.Valid() && Safe(k.Table(), size) && Resident(k.Table(), k.mem, dir, chunk)
      modifies k`mem, k.heap.entries, allocations
      ensures k.Valid()
      ensures MallocPost(old(k.Table()), old(k.mem), dir, old(allocations[..]), size,
                         k.Table(), k.mem, allocations[..], ptr)
    {
      hide Cleared; hide Mapped; hide EntryOf; hide TableAddr; hide OwnsPage; hide SameTables; hide OnlyTables;
      hide MallocFrame;
      ghost var t, m, allocs := k.Table(), k.mem, allocations[..];
      ghost var n := Blocks(size);
      ptr := k.Kzalloc(size);
      if ptr == 0 {
        return;
      }
      ghost var s := FirstFit(t, n);
      ghost var m1 := k.mem;
      ZeroMissesTables(t, m, dir, chunk, s, n, ptr, size, m1);
      SameTablesOk(m, m1, dir);
      assert allocations[..] == allocs;
      var ok := Enter(k, ptr, size);
      if !ok {
        FreeUndoesMark(t, s, n);
        k.Kfree(ptr);
        return 0;
      }
      FrameThenTables(m, m1, k.mem, dir, s, n);
      ZeroStays(t, m, dir, chunk, s, n, ptr, size, m1, k.mem);
    }

    /** process_free, for a nonzero pointer. */
    method Free(k: Machine, ptr: Word)
      requires Valid() && k.Valid() && DirOk(k.mem, dir) && ptr != 0
      requires forall i :: 0 <= i < MAX_ALLOCATIONS && allocations[i].ptr != 0 ==> InPool(allocations[i])
      modifies k`mem, k.heap.entries, allocations
      ensures k.Valid()
      ensures FreePost(old(k.Table()), old(k.mem), dir, old(allocations[..]), ptr, k.Table(), k.mem, allocations[..])
    {
      var slot := GetAllocationByAddr(ptr);
      if slot < 0 {
        return;
      }
      hide Mapped; hide TableAddr; hide EntryOf; hide OwnsPage; hide AlignAddress;
      var a := allocations[slot];
      PoolRange(a);
      assert (AlignAddress(a.ptr + a.size) - a.ptr) / PAGE == Blocks(a.size);
      var res := k.PagingMapTo(dir, a.ptr, a.ptr, AlignAddress(a.ptr + a.size), 0);
      if res < 0 {
        return;
      }
      AllocationUnjoin(ptr);
      k.Kfree(ptr);
    }
  }

  /** kzalloc's memset lands in blocks that were free, so in no page of a resident directory. */
  lemma ZeroMissesTables(t: seq<Entry>, m: Mem, dir: PageAddr, chunk: PageAddr, s: nat, n: nat, ptr: Word, size: Word,
                         m1: Mem)
    requires Resident(t, m, dir, chunk) && n >= 1 && FreeRun(t, s, n) && ptr == BlockAddr(s)
    requires 1 <= size <= n * BLOCK_SIZE && m1 == Zeroed(m, ptr, size)
    ensures MallocFrame(m, m1, dir, s, n)
    ensures SameTables(m, m1, dir) && Flat(m1, dir) == Flat(m, dir)
  {
    forall a: PageAddr | !InBlocks(s, n, a) ensures SamePage(m, m1, a) {
      assert a + PAGE <= ptr || ptr + n * PAGE <= a;
    }
    forall a: PageAddr | OwnsPage(m, dir, a) ensures SamePage(m, m1, a) {
      assert PtPage(m, dir, chunk, a);
      InBlocksIndex(s, n, a);
    }
    FlatFrame(m, m1, dir);
  }

  /** What kzalloc cleared, and what it left, is still so after the new pages are entered in tables. */
  lemma ZeroStays(t: seq<Entry>, m: Mem, dir: PageAddr, chunk: PageAddr, s: nat, n: nat, ptr: Word, size: Word,
                  m1: Mem, m2: Mem)
    requires Resident(t, m, dir, chunk) && FreeRun(t, s, n) && s < HEAP_BLOCKS && ptr == BlockAddr(s)
    requires size <= n * BLOCK_SIZE && m1 == Zeroed(m, ptr, size) && SameTables(m, m1, dir) && OnlyTables(m1, m2, dir)
    ensures Cleared(m, m2, ptr, size, n)
  {
    hide OwnsPage; hide TableAddr; hide Mask; hide InBlocks; hide Resident; hide SameTables; hide FreeRun;
    SameTablesOk(m, m1, dir);
    forall x: Word | ptr <= x < ptr + n * BLOCK_SIZE ensures m2[x] == if x < ptr + size then 0 else m[x] {
      var a := Mask(x);
      ByteInBlocks(s, n, x);
      NoTableInFree(t, m, dir, chunk, s, n, a);
      assert SamePage(m1, m2, a);
    }
  }

  lemma ByteInBlocks(s: nat, n: nat, x: Word)
    requires HEAP_BASE + s * BLOCK_SIZE <= x < HEAP_BASE + (s + n) * BLOCK_SIZE
    ensures Mask(x) <= x < Mask(x) + PAGE && InBlocks(s, n, Mask(x))
  {
  }

  lemma NoTableInFree(t: seq<Entry>, m: Mem, dir: PageAddr, chunk: PageAddr, s: nat, n: nat, a: PageAddr)
    requires Resident(t, m, dir, chunk) && FreeRun(t, s, n) && InBlocks(s, n, a)
    ensures !OwnsPage(m, dir, a)
  {
    hide OwnsPage; hide TableAddr;
    if OwnsPage(m, dir, a) {
      assert PtPage(m, dir, chunk, a);
      InBlocksIndex(s, n, a);
      assert false;
    }
  }

  /** What the process gets: its new addresses lead to themselves, it may write them, and it reads 0 there; what follows
      in the last page is not cleared. */
  lemma MallocGrants(t: seq<Entry>, m: Mem, dir: PageAddr, allocs: seq<Allocation>, size: Word,
                     t': seq<Entry>, m': Mem, allocs': seq<Allocation>, ptr: Word)
    requires |t| == HEAP_BLOCKS && Safe(t, size) && ptr != 0
    requires MallocPost(t, m, dir, allocs, size, t', m', allocs', ptr)
    ensures MapsOpen(Flat(m', dir), ptr, ptr, size)
    ensures forall v: Word :: ptr <= v < ptr + size ==> m'[v] == 0
    ensures forall v: Word :: ptr + size <= v < ptr + Blocks(size) * 4096 ==> m'[v] == m[v]
  {
    hide Flat; hide Mapped; hide Translate; hide Open; hide MallocFrame; hide SameTables; hide Marked;
    PoolRange(Allocation(ptr, size));
    CoversSize(size);
    RangeOpen(Flat(m, dir), ptr, ptr, Blocks(size), size);
  }

  lemma CoversSize(size: Word)
    requires 1 <= size <= WORD_LIMIT - BLOCK_SIZE
    ensures size <= Blocks(size) * PAGE
  {
  }


  lemma InBlocksIndex(s: int, n: int, a: PageAddr)
    requires IsBlock(a)
    ensures InBlocks(s, n, a) <==> s <= BlockOf(a) < s + n
  {
  }

  lemma FrameThenTables(m: Mem, m1: Mem, m2: Mem, dir: PageAddr, s: int, n: int)
    requires MallocFrame(m, m1, dir, s, n) && SameTables(m, m1, dir)
    requires OnlyTables(m1, m2, dir) && SameTables(m1, m2, dir)
    ensures MallocFrame(m, m2, dir, s, n) && SameTables(m, m2, dir)
  {
    SameTablesOk(m, m1, dir);
    forall a: PageAddr | !InBlocks(s, n, a) && (a == dir || !OwnsPage(m, dir, a)) ensures SamePage(m, m2, a) {
      assert SamePage(m, m1, a) && SamePage(m1, m2, a);
    }
  }

  lemma RemapRange(f: FlatMap, page: nat, addr: PageAddr, count: nat, flags: Word, flags': Word)
    requires addr + count * PAGE <= WORD_LIMIT
    ensures Mapped(Mapped(f, page, addr, count, flags), page, addr, count, flags') ==
              Mapped(f, page, addr, count, flags')
  {
  }

  /** Mapping a range changes nothing exactly when every page of it already had its new entry. */
  lemma RemapIffSame(f: FlatMap, a: Allocation)
    requires InPool(a)
    ensures AllocMapped(f, a, 0) == f <==>
            forall v :: a.ptr / PAGE <= v < a.ptr / PAGE + Blocks(a.size) ==> f[v] == Tag(v * PAGE, 0)
  {
    hide Mapped;
    PoolRange(a);
    var p, n, g := a.ptr / PAGE, Blocks(a.size), AllocMapped(f, a, 0);
    forall v | 0 <= v < PAGES ensures g[v] == if p <= v < p + n then Tag(v * PAGE, 0) else f[v] {
      MappedAt(f, p, a.ptr, n, 0, v);
    }
    assert (forall v :: 0 <= v < PAGES ==> g[v] == f[v]) ==> g == f;
  }

  /** process_malloc then process_free: the heap table and the allocation table are as before; the page map is as before
      exactly when the pages had no flags at all, because that is how freed pages end, present and user included. */
  lemma MallocThenFree(t: seq<Entry>, m: Mem, dir: PageAddr, allocs: seq<Allocation>, size: Word,
                       t1: seq<Entry>, m1: Mem, allocs1: seq<Allocation>, ptr: Word,
                       t2: seq<Entry>, m2: Mem, allocs2: seq<Allocation>)
    requires |t| == HEAP_BLOCKS && Safe(t, size)
    requires forall i :: 0 <= i < |allocs| && allocs[i].ptr != 0 ==> InPool(allocs[i])
    requires forall i :: 0 <= i < |allocs| && allocs[i].ptr == 0 ==> allocs[i] == EMPTY
    requires MallocPost(t, m, dir, allocs, size, t1, m1, allocs1, ptr) && ptr != 0
    requires forall i :: 0 <= i < |allocs| ==> allocs[i].ptr != ptr
    requires InPool(Allocation(ptr, size)) && FreePost(t1, m1, dir, allocs1, ptr, t2, m2, allocs2)
    ensures t2 == t && allocs2 == allocs
    ensures Flat(m2, dir) == AllocMapped(Flat(m, dir), Allocation(ptr, size), 0)
    ensures Flat(m2, dir) == Flat(m, dir) <==>
            forall v :: ptr / PAGE <= v < ptr / PAGE + Blocks(size) ==> Flat(m, dir)[v] == Tag(v * PAGE, 0)
  {
    var n, s, slot := Blocks(size), FirstFit(t, Blocks(size)), FindSlot(allocs, 0);
    FindSlotIs(allocs1, ptr, slot);
    FreeUndoesMark(t, s, n);
    assert BlockOf(ptr) == s;
    assert Unjoined(allocs1, ptr) == allocs;
    RemapRange(Flat(m, dir), ptr / PAGE, ptr, n, USER_RW, 0);
    RemapIffSame(Flat(m, dir), Allocation(ptr, size));
  }
}
