/**
 The whole memory stack over whole runs: any interleaving of process creation, loading, process_malloc,
 process_free, kernel allocations, stores and process destruction, by any number of processes.
 */
module Isolation {
  import opened Bits
  import opened Memory
  import opened BlockTable
  import opened KernelHeap
  import opened PageMap
  import opened Kernel
  import opened Processes

  /** A process as a value: its page directory and its allocation table. */
  datatype Proc = Proc(dir: PageAddr, chunk: PageAddr, allocs: seq<Allocation>)

  datatype World = World(table: seq<Entry>, mem: Mem, procs: map<nat, Proc>)

  /** What a live heap allocation is for. */
  datatype Owner =
    | ChunkOf(pid: nat)
    | DirOf(pid: nat)
    | TableOf(pid: nat, i: nat)
    | Data(pid: nat, slot: nat)
    | Image(pid: nat)
    | KernelData

  /** The callers' record of the live allocations: head block to length and to purpose. */
  datatype Ledger = Ledger(live: Live, owner: map<nat, Owner>)

  predicate Owns(l: Ledger, h: nat, o: Owner) {
    h in l.live && h in l.owner && l.owner[h] == o
  }

  predicate BelongsTo(o: Owner, pid: nat) {
    !o.KernelData? && o.pid == pid
  }

  predicate HeapPage(v: int) {
    HEAP_BASE / PAGE <= v < HEAP_BASE / PAGE + HEAP_BLOCKS
  }

  ghost predicate InSlot(a: Allocation, v: int) {
    a.ptr != 0 && a.ptr / PAGE <= v < a.ptr / PAGE + Blocks(a.size)
  }

  /** Page v lies in one of the live allocations of the table. */
  ghost predicate InAlloc(allocs: seq<Allocation>, v: int) {
    exists slot :: 0 <= slot < |allocs| && InSlot(allocs[slot], v)
  }

  // ----- The invariant -----

  predicate HoldsPage(l: Ledger, a: PageAddr, o: Owner) {
    IsBlock(a) && Owns(l, BlockOf(a), o)
  }

  /** Every entry of the directory lets user-mode writes through; the tables decide. */
  ghost predicate DirectoryOpen(m: Mem, dir: PageAddr) {
    forall i :: 0 <= i < TABLE_LEN ==> Open(ReadWord(m, dir + 4 * i))
  }

  ghost predicate StructureOk(st: World, l: Ledger, pid: nat)
    requires pid in st.procs
  {
    && Resident(st.table, st.mem, st.procs[pid].dir, st.procs[pid].chunk)
    && HoldsPage(l, st.procs[pid].chunk, ChunkOf(pid))
    && HoldsPage(l, st.procs[pid].dir, DirOf(pid))
    && DirectoryOpen(st.mem, st.procs[pid].dir)
    && forall i :: 0 <= i < TABLE_LEN ==> HoldsPage(l, TableAddr(st.mem, st.procs[pid].dir, i), TableOf(pid, i))
  }

  ghost predicate AllocsOk(l: Ledger, pid: nat, allocs: seq<Allocation>) {
    && |allocs| == MAX_ALLOCATIONS
    && forall slot :: 0 <= slot < |allocs| && allocs[slot].ptr != 0 ==>
         SlotOk(l, pid, slot, allocs[slot])
  }

  ghost predicate SlotOk(l: Ledger, pid: nat, slot: nat, a: Allocation) {
    InPool(a) && Owns(l, BlockOf(a.ptr), Data(pid, slot)) && l.live[BlockOf(a.ptr)] == Blocks(a.size)
  }

  ghost predicate ImageFrame(l: Ledger, pid: nat, frame: PageAddr) {
    IsBlock(frame) && exists h :: Covers(l.live, h, BlockOf(frame)) && Owns(l, h, Image(pid))
  }

  /** A heap page can be written exactly when it lies in a live allocation, and then leads to itself. */
  ghost predicate HeapEntryOk(allocs: seq<Allocation>, v: int, e: Word) {
    (Open(e) ==> Mask(e) == v * PAGE) && (Open(e) <==> InAlloc(allocs, v))
  }

  ghost predicate HeapPagesOk(f: FlatMap, allocs: seq<Allocation>) {
    forall v :: HeapPage(v) ==> HeapEntryOk(allocs, v, f[v])
  }

  ghost predicate OtherPagesOk(f: FlatMap, l: Ledger, pid: nat) {
    forall v :: 0 <= v < PAGES && !HeapPage(v) && Open(f[v]) ==> ImageFrame(l, pid, Mask(f[v]))
  }

  ghost predicate ProcOk(st: World, l: Ledger, pid: nat)
    requires pid in st.procs
  {
    && StructureOk(st, l, pid)
    && AllocsOk(l, pid, st.procs[pid].allocs)
    && HeapPagesOk(Flat(st.mem, st.procs[pid].dir), st.procs[pid].allocs)
    && OtherPagesOk(Flat(st.mem, st.procs[pid].dir), l, pid)
  }

  ghost predicate Inv(st: World, l: Ledger) {
    && |st.table| == HEAP_BLOCKS
    && Holds(st.table, l.live) && l.live.Keys == l.owner.Keys
    && forall pid :: pid in st.procs ==> ProcOk(st, l, pid)
  }

  // ----- The steps -----

  datatype Op =
    | Spawn(pid: nat, dir: PageAddr, chunk: PageAddr)
    | Load(pid: nat, ranges: seq<Range>)
    | Malloc(pid: nat, size: Word, ptr: Word)
    | Free(pid: nat, ptr: Word)
    | Destroy(pid: nat, before: seq<nat>)
    | KernelAlloc(size: Word, owner: Owner)
    | KernelFree(head: nat)
    | Store

  function NoAllocs(): (a: seq<Allocation>)
    ensures |a| == MAX_ALLOCATIONS && forall i :: 0 <= i < |a| ==> a[i] == EMPTY
  {
    seq(MAX_ALLOCATIONS, _ => EMPTY)
  }

  ghost function PtOwner(m: Mem, dir: PageAddr, chunk: PageAddr, pid: nat, a: PageAddr): Owner
    requires PtPage(m, dir, chunk, a)
  {
    if a == chunk then ChunkOf(pid)
    else if a == dir then DirOf(pid)
    else
      var i :| 0 <= i < TABLE_LEN && TableAddr(m, dir, i) == a;
      TableOf(pid, i)
  }

  ghost function PtOwners(m: Mem, dir: PageAddr, chunk: PageAddr, pid: nat): (o: map<nat, Owner>)
    ensures o.Keys == PtBlocks(m, dir, chunk)
  {
    map b: nat | b in PtBlocks(m, dir, chunk) :: PtOwner(m, dir, chunk, pid, BlockAddr(b))
  }

  ghost function SpawnLedger(l: Ledger, m: Mem, dir: PageAddr, chunk: PageAddr, pid: nat): Ledger {
    Ledger(l.live + Singles(PtBlocks(m, dir, chunk)), l.owner + PtOwners(m, dir, chunk, pid))
  }

  function Add(l: Ledger, h: nat, n: nat, o: Owner): Ledger {
    Ledger(l.live[h := n], l.owner[h := o])
  }

  function Remove(l: Ledger, hs: set<nat>): Ledger {
    Ledger(l.live - hs, l.owner - hs)
  }

  ghost predicate SpawnNext(st: World, l: Ledger, pid: nat, dir: PageAddr, chunk: PageAddr, st': World, l': Ledger) {
    && pid !in st.procs
    && Built(st.table, st.mem, PRESENT + ACCESS_FROM_ALL, st'.table, st'.mem, dir, chunk)
    && st'.procs == st.procs[pid := Proc(dir, chunk, NoAllocs())]
    && l' == SpawnLedger(l, st'.mem, dir, chunk, pid)
  }

  /** What isolation allows as the entry of page v of a process: a heap page can be written exactly when it lies in a
      live allocation, and then leads to itself; any other page that can be written leads into the image of the
      process. */
  ghost predicate EntryOk(l: Ledger, pid: nat, allocs: seq<Allocation>, v: int, e: Word) {
    if HeapPage(v) then HeapEntryOk(allocs, v, e) else Open(e) ==> ImageFrame(l, pid, Mask(e))
  }

  /** Every entry that the calls leave is allowed. */
  ghost predicate Harmless(l: Ledger, pid: nat, allocs: seq<Allocation>, ranges: seq<Range>)
    requires AllFit(ranges)
  {
    forall i, v :: 0 <= v < PAGES && Decides(ranges, i, v) ==> EntryOk(l, pid, allocs, v, ranges[i].Entry(v))
  }

  /** Calls of paging_map_to for process pid; nothing else changes. */
  ghost predicate Remapped(st: World, pid: nat, ranges: seq<Range>, st': World) {
    && pid in st.procs && AllFit(ranges)
    && st'.table == st.table && st'.procs == st.procs
    && SameTables(st.mem, st'.mem, st.procs[pid].dir) && OnlyTables(st.mem, st'.mem, st.procs[pid].dir)
    && Flat(st'.mem, st.procs[pid].dir) == ApplyAll(Flat(st.mem, st.procs[pid].dir), ranges)
  }

  /** process_map_memory. */
  ghost predicate LoadNext(st: World, l: Ledger, pid: nat, ranges: seq<Range>, st': World, l': Ledger) {
    Remapped(st, pid, ranges, st') && Harmless(l, pid, st.procs[pid].allocs, ranges) && l' == l
  }

  /** Only process pid changes, and of it only the allocation table. */
  ghost predicate SameProcs(st: World, pid: nat, st': World)
  {
    && pid in st.procs && pid in st'.procs
    && st'.procs == st.procs[pid := Proc(st.procs[pid].dir, st.procs[pid].chunk, st'.procs[pid].allocs)]
  }

  ghost predicate MallocNext(st: World, l: Ledger, pid: nat, size: Word, ptr: Word, st': World, l': Ledger)
    requires |st.table| == HEAP_BLOCKS
  {
    && SameProcs(st, pid, st') && Safe(st.table, size)
    && MallocPost(st.table, st.mem, st.procs[pid].dir, st.procs[pid].allocs, size,
                  st'.table, st'.mem, st'.procs[pid].allocs, ptr)
    && l' == MallocLedger(st, l, pid, size)
  }

  ghost function MallocLedger(st: World, l: Ledger, pid: nat, size: Word): Ledger
    requires pid in st.procs
  {
    var s, slot := FirstFit(st.table, Blocks(size)), FindSlot(st.procs[pid].allocs, 0);
    if s < 0 || slot == |st.procs[pid].allocs| then l else Add(l, s, Blocks(size), Data(pid, slot))
  }

  ghost predicate FreeNext(st: World, l: Ledger, pid: nat, ptr: Word, st': World, l': Ledger) {
    && SameProcs(st, pid, st') && ptr != 0 && AllocsOk(l, pid, st.procs[pid].allocs)
    && FreePost(st.table, st.mem, st.procs[pid].dir, st.procs[pid].allocs, ptr,
                st'.table, st'.mem, st'.procs[pid].allocs)
    && l' == FreeLedger(st, l, pid, ptr)
  }

  ghost function FreeLedger(st: World, l: Ledger, pid: nat, ptr: Word): Ledger
    requires pid in st.procs
  {
    if FindSlot(st.procs[pid].allocs, ptr) == |st.procs[pid].allocs| || ptr < HEAP_BASE then l
    else Remove(l, {(ptr - HEAP_BASE) / BLOCK_SIZE})
  }

  /** The chains at the given heads freed, one after the other. */
  function FreedAll(t: seq<Entry>, heads: seq<nat>): (u: seq<Entry>)
    ensures |u| == |t|
  {
    if heads == [] then t else Freed(FreedAll(t, heads[..|heads| - 1]), heads[|heads| - 1])
  }

  function ToSet(heads: seq<nat>): set<nat> {
    set i | 0 <= i < |heads| :: heads[i]
  }

  /** A block the kernel frees for pid when pid runs no more: of its image, or of the kernel's own. */
  ghost predicate Disposable(l: Ledger, h: nat, pid: nat) {
    h in l.owner && (l.owner[h] == Image(pid) || l.owner[h].KernelData?)
  }

  /** The end of process_terminate: after the allocations are gone, the program's blocks are freed and then the
      paging structure, whose user runs no more. */
  ghost predicate DestroyNext(st: World, l: Ledger, pid: nat, before: seq<nat>, st': World, l': Ledger) {
    && pid in st.procs && (forall i :: 0 <= i < |st.procs[pid].allocs| ==> st.procs[pid].allocs[i].ptr == 0)
    && (forall i :: 0 <= i < |before| ==> Disposable(l, before[i], pid))
    && (forall i, j :: 0 <= i < j < |before| ==> before[i] != before[j])
    && Released(FreedAll(st.table, before), st.mem, st.procs[pid].dir, st.procs[pid].chunk, st'.table)
    && st'.mem == st.mem && st'.procs == st.procs - {pid}
    && l' == Remove(Remove(l, ToSet(before)), PtBlocks(st.mem, st.procs[pid].dir, st.procs[pid].chunk))
  }

  ghost predicate KernelAllocNext(st: World, l: Ledger, size: Word, owner: Owner, st': World, l': Ledger)
    requires |st.table| == HEAP_BLOCKS
  {
    && Safe(st.table, size) && (owner.KernelData? || owner.Image?) && st'.procs == st.procs
    && if FirstFit(st.table, Blocks(size)) < 0 then st' == st && l' == l
       else KernelAllocated(st, l, FirstFit(st.table, Blocks(size)), size, owner, st', l')
  }

  ghost predicate KernelAllocated(st: World, l: Ledger, s: nat, size: Word, owner: Owner, st': World, l': Ledger)
    requires |st.table| == HEAP_BLOCKS
  {
    && FreeRun(st.table, s, Blocks(size)) && size <= Blocks(size) * BLOCK_SIZE && s < HEAP_BLOCKS
    && st'.table == Marked(st.table, s, Blocks(size))
    && st'.mem == Zeroed(st.mem, BlockAddr(s), size)
    && l' == Add(l, s, Blocks(size), owner)
  }

  ghost predicate KernelFreeNext(st: World, l: Ledger, head: nat, st': World, l': Ledger) {
    && head in l.owner
    && (l.owner[head].KernelData? || (l.owner[head].Image? && l.owner[head].pid !in st.procs))
    && st'.table == Freed(st.table, head) && st'.mem == st.mem && st'.procs == st.procs
    && l' == Remove(l, {head})
  }

  /** Bytes written, by a program or by the kernel, anywhere but in a paging structure. */
  ghost predicate StoreNext(st: World, l: Ledger, st': World, l': Ledger) {
    && (forall pid :: pid in st.procs ==> PtSame(st, st'.mem, pid))
    && st'.table == st.table && st'.procs == st.procs && l' == l
  }

  /** One step: what the methods of the kernel guarantee, plus the callers' bookkeeping. */
  ghost predicate Next(st: World, l: Ledger, op: Op, st': World, l': Ledger)
    requires |st.table| == HEAP_BLOCKS
  {
    match op
    case Spawn(pid, dir, chunk) => SpawnNext(st, l, pid, dir, chunk, st', l')
    case Load(pid, ranges) => LoadNext(st, l, pid, ranges, st', l')
    case Malloc(pid, size, ptr) => MallocNext(st, l, pid, size, ptr, st', l')
    case Free(pid, ptr) => FreeNext(st, l, pid, ptr, st', l')
    case Destroy(pid, before) => DestroyNext(st, l, pid, before, st', l')
    case KernelAlloc(size, owner) => KernelAllocNext(st, l, size, owner, st', l')
    case KernelFree(head) => KernelFreeNext(st, l, head, st', l')
    case Store => StoreNext(st, l, st', l')
  }

  // ----- What a step leaves alone -----

  /** The new ledger keeps every allocation of pid, except perhaps the one at block gone. */
  ghost predicate Keeps(l: Ledger, l': Ledger, pid: nat, gone: int) {
    forall h :: h in l.live && h in l.owner && BelongsTo(l.owner[h], pid) && h != gone ==>
      Owns(l', h, l.owner[h]) && l'.live[h] == l.live[h]
  }

  ghost predicate PtSame(st: World, m': Mem, pid: nat)
    requires pid in st.procs
  {
    forall a: PageAddr :: PtPage(st.mem, st.procs[pid].dir, st.procs[pid].chunk, a) ==> SamePage(st.mem, m', a)
  }

  /** A page of a paging structure is a one-block allocation recorded for its process. */
  lemma PtBlockOwned(st: World, l: Ledger, pid: nat, a: PageAddr)
    requires Inv(st, l) && pid in st.procs && PtPage(st.mem, st.procs[pid].dir, st.procs[pid].chunk, a)
    ensures IsBlock(a) && BlockOf(a) in l.live && l.live[BlockOf(a)] == 1 && st.table[BlockOf(a)] != FREE
    ensures BlockOf(a) in l.owner && BelongsTo(l.owner[BlockOf(a)], pid)
    ensures !l.owner[BlockOf(a)].Data? && !l.owner[BlockOf(a)].Image?
  {
    var p := st.procs[pid];
    assert StructureOk(st, l, pid);
    if a != p.chunk && a != p.dir {
      var i :| 0 <= i < TABLE_LEN && TableAddr(st.mem, p.dir, i) == a;
      assert HoldsPage(l, a, TableOf(pid, i));
    }
    var b := BlockOf(a);
    assert Covers(l.live, b, b) && st.table[b] == SINGLE;
    assert !HasNext(ChainEntry(0, l.live[b]));
  }

  /** The paging structure of pid survives a step that keeps its directory and its chunk. */
  lemma StructureKept(st: World, l: Ledger, st': World, l': Ledger, pid: nat, gone: int)
    requires Inv(st, l) && pid in st.procs && pid in st'.procs
    requires st'.procs[pid].dir == st.procs[pid].dir && st'.procs[pid].chunk == st.procs[pid].chunk
    requires |st'.table| == HEAP_BLOCKS && Holds(st'.table, l'.live)
    requires Keeps(l, l', pid, gone) && (gone in l.owner ==> l.owner[gone].Data?)
    requires SamePage(st.mem, st'.mem, st.procs[pid].dir) && SamePage(st.mem, st'.mem, st.procs[pid].chunk)
    ensures StructureOk(st', l', pid)
  {
    hide ReadWord; hide TableAddr; hide OwnsPage; hide Open;
    DirectoryAgrees(st.mem, st'.mem, st.procs[pid].dir);
    OpenKept(st.mem, st'.mem, st.procs[pid].dir);
    var dir, chunk := st.procs[pid].dir, st.procs[pid].chunk;
    assert StructureOk(st, l, pid);
    forall a: PageAddr | PtPage(st.mem, dir, chunk, a)
      ensures IsBlock(a) && BlockOf(a) in l'.live && l'.live[BlockOf(a)] == 1
    {
      PtBlockOwned(st, l, pid, a);
    }
    ResidentKept(st.table, st.mem, st'.table, st'.mem, l'.live, dir, chunk);
    HeadsKept(st, l, l', pid, gone);
  }

  lemma OpenKept(m: Mem, n: Mem, dir: PageAddr)
    requires DirectoryOpen(m, dir) && SamePage(m, n, dir)
    ensures DirectoryOpen(n, dir)
  {
    forall i | 0 <= i < TABLE_LEN ensures Open(ReadWord(n, dir + 4 * i)) {
      ReadSame(m, n, dir, i);
    }
  }

  lemma ResidentKept(t: seq<Entry>, m: Mem, t': seq<Entry>, m': Mem, live': Live, dir: PageAddr, chunk: PageAddr)
    requires Resident(t, m, dir, chunk) && |t'| == HEAP_BLOCKS && Holds(t', live')
    requires SameTables(m, m', dir) && SamePage(m, m', chunk)
    requires forall a: PageAddr :: PtPage(m, dir, chunk, a) ==>
              IsBlock(a) && BlockOf(a) in live' && live'[BlockOf(a)] == 1
    ensures Resident(t', m', dir, chunk)
  {
    SameTablesOk(m, m', dir);
    ReadSame(m, m', chunk, 0);
    forall a: PageAddr | PtPage(m', dir, chunk, a) ensures IsBlock(a) && t'[BlockOf(a)] == SINGLE {
      assert PtPage(m, dir, chunk, a);
      assert Covers(live', BlockOf(a), BlockOf(a));
    }
  }

  lemma HeadsKept(st: World, l: Ledger, l': Ledger, pid: nat, gone: int)
    requires pid in st.procs && StructureOk(st, l, pid)
    requires Keeps(l, l', pid, gone) && (gone in l.owner ==> l.owner[gone].Data?)
    ensures HoldsPage(l', st.procs[pid].chunk, ChunkOf(pid)) && HoldsPage(l', st.procs[pid].dir, DirOf(pid))
    ensures forall i :: 0 <= i < TABLE_LEN ==> HoldsPage(l', TableAddr(st.mem, st.procs[pid].dir, i), TableOf(pid, i))
  {
    forall i | 0 <= i < TABLE_LEN ensures HoldsPage(l', TableAddr(st.mem, st.procs[pid].dir, i), TableOf(pid, i)) {
      assert HoldsPage(l, TableAddr(st.mem, st.procs[pid].dir, i), TableOf(pid, i));
    }
  }

  lemma SlotsKept(l: Ledger, l': Ledger, pid: nat, allocs: seq<Allocation>)
    requires AllocsOk(l, pid, allocs) && Keeps(l, l', pid, -1)
    ensures AllocsOk(l', pid, allocs)
  {
    forall slot | 0 <= slot < |allocs| && allocs[slot].ptr != 0 ensures SlotOk(l', pid, slot, allocs[slot]) {
      assert SlotOk(l, pid, slot, allocs[slot]);
    }
  }

  lemma ImageKept(l: Ledger, l': Ledger, pid: nat, gone: int, frame: PageAddr)
    requires ImageFrame(l, pid, frame) && Keeps(l, l', pid, gone) && (gone in l.owner ==> l.owner[gone].Data?)
    ensures ImageFrame(l', pid, frame)
  {
    var h :| Covers(l.live, h, BlockOf(frame)) && Owns(l, h, Image(pid));
    assert Covers(l'.live, h, BlockOf(frame));
  }

  lemma OtherPagesKept(f: FlatMap, l: Ledger, l': Ledger, pid: nat, gone: int)
    requires OtherPagesOk(f, l, pid) && Keeps(l, l', pid, gone) && (gone in l.owner ==> l.owner[gone].Data?)
    ensures OtherPagesOk(f, l', pid)
  {
    forall v | 0 <= v < PAGES && !HeapPage(v) && Open(f[v]) ensures ImageFrame(l', pid, Mask(f[v])) {
      ImageKept(l, l', pid, gone, Mask(f[v]));
    }
  }

  /** A process that a step does not touch. */
  lemma Untouched(st: World, l: Ledger, st': World, l': Ledger, pid: nat)
    requires Inv(st, l) && pid in st.procs && pid in st'.procs && st'.procs[pid] == st.procs[pid]
    requires |st'.table| == HEAP_BLOCKS && Holds(st'.table, l'.live)
    requires Keeps(l, l', pid, -1) && PtSame(st, st'.mem, pid)
    ensures ProcOk(st', l', pid)
  {
    var p := st.procs[pid];
    assert PtPage(st.mem, p.dir, p.chunk, p.chunk) && PtPage(st.mem, p.dir, p.chunk, p.dir);
    FlatFrame(st.mem, st'.mem, p.dir);
    StructureKept(st, l, st', l', pid, -1);
    OtherPagesKept(Flat(st.mem, p.dir), l, l', pid, -1);
    SlotsKept(l, l', pid, p.allocs);
  }

  /** No page belongs to the paging structures of two processes. */
  lemma PtDisjoint(st: World, l: Ledger, p: nat, q: nat, a: PageAddr)
    requires Inv(st, l) && p in st.procs && q in st.procs
    requires PtPage(st.mem, st.procs[p].dir, st.procs[p].chunk, a)
              && PtPage(st.mem, st.procs[q].dir, st.procs[q].chunk, a)
    ensures p == q
  {
    PtBlockOwned(st, l, p, a);
    PtBlockOwned(st, l, q, a);
  }

  // ----- process_malloc -----

  lemma FreshRunMissesPt(st: World, l: Ledger, s: nat, n: nat, pid: nat, a: PageAddr)
    requires Inv(st, l) && FreeRun(st.table, s, n) && pid in st.procs
    requires PtPage(st.mem, st.procs[pid].dir, st.procs[pid].chunk, a)
    ensures !InBlocks(s, n, a)
  {
    PtBlockOwned(st, l, pid, a);
    InBlocksIndex(s, n, a);
  }

  /** Memory that changes only in fresh blocks and in tables of pid leaves the structures of the others alone. */
  lemma OthersSame(st: World, l: Ledger, m': Mem, pid: nat, s: nat, n: nat, q: nat)
    requires Inv(st, l) && FreeRun(st.table, s, n) && pid in st.procs && q in st.procs && q != pid
    requires MallocFrame(st.mem, m', st.procs[pid].dir, s, n)
    ensures PtSame(st, m', q)
  {
    forall a: PageAddr | PtPage(st.mem, st.procs[q].dir, st.procs[q].chunk, a) ensures SamePage(st.mem, m', a) {
      FreshRunMissesPt(st, l, s, n, q, a);
      if OwnsPage(st.mem, st.procs[pid].dir, a) {
        PtDisjoint(st, l, pid, q, a);
        assert false;
      }
    }
  }

  /** After process_malloc the heap pages of the process are writeable exactly in its allocations. */
  lemma MallocPages(f: FlatMap, allocs: seq<Allocation>, slot: nat, s: nat, size: Word)
    requires HeapPagesOk(f, allocs) && slot < |allocs| && allocs[slot].ptr == 0
    requires InPool(Allocation(BlockAddrAt(s), size)) && s + Blocks(size) <= HEAP_BLOCKS
    ensures var ptr := BlockAddrAt(s);
            HeapPagesOk(Mapped(f, ptr / PAGE, ptr, Blocks(size), USER_RW), allocs[slot := Allocation(ptr, size)])
  {
    var ptr, n := BlockAddrAt(s), Blocks(size);
    var allocs' := allocs[slot := Allocation(ptr, size)];
    var g := Mapped(f, ptr / PAGE, ptr, n, USER_RW);
    forall v | HeapPage(v) ensures HeapEntryOk(allocs', v, g[v]) {
      MappedAt(f, ptr / PAGE, ptr, n, USER_RW, v);
      if ptr / PAGE <= v < ptr / PAGE + n {
        TagGrants(v * PAGE, USER_RW);
        assert InSlot(allocs'[slot], v);
      } else {
        AllocUpdated(allocs, slot, Allocation(ptr, size), v);
      }
    }
  }

  function BlockAddrAt(s: nat): Word {
    if s < HEAP_BLOCKS then BlockAddr(s) else 0
  }

  lemma AllocUpdated(allocs: seq<Allocation>, slot: nat, a: Allocation, v: int)
    requires slot < |allocs| && !InSlot(a, v) && !InSlot(allocs[slot], v)
    ensures InAlloc(allocs[slot := a], v) <==> InAlloc(allocs, v)
  {
    var allocs' := allocs[slot := a];
    if j :| 0 <= j < |allocs| && InSlot(allocs[j], v) { assert InSlot(allocs'[j], v); }
    if j :| 0 <= j < |allocs'| && InSlot(allocs'[j], v) { assert InSlot(allocs[j], v); }
  }

  lemma MappedHeapKeepsOthers(f: FlatMap, l: Ledger, pid: nat, page: nat, addr: PageAddr, count: nat, flags: Word)
    requires OtherPagesOk(f, l, pid) && addr + count * PAGE <= WORD_LIMIT && page + count <= PAGES
    requires forall v :: page <= v < page + count ==> HeapPage(v)
    ensures OtherPagesOk(Mapped(f, page, addr, count, flags), l, pid)
  {
    forall v | 0 <= v < PAGES && !HeapPage(v) ensures Mapped(f, page, addr, count, flags)[v] == f[v] {
      MappedAt(f, page, addr, count, flags, v);
    }
  }

  /** Recording a fresh chain keeps the ledger exact and every earlier allocation in it. */
  lemma AddKeeps(t: seq<Entry>, l: Ledger, s: nat, n: nat, o: Owner)
    requires Holds(t, l.live) && l.live.Keys == l.owner.Keys && n >= 1 && FreeRun(t, s, n)
    ensures Holds(Marked(t, s, n), Add(l, s, n, o).live)
    ensures Add(l, s, n, o).live.Keys == Add(l, s, n, o).owner.Keys
    ensures forall q :: Keeps(l, Add(l, s, n, o), q, -1)
  {
    MarkKeeps(t, l.live, s, n);
  }

  /** The process that allocated, given what happened to the ledger and the memory. */
  lemma MallocSelf(st: World, l: Ledger, st': World, l': Ledger, pid: nat, s: nat, size: Word)
    requires Inv(st, l) && SameProcs(st, pid, st')
    requires |st'.table| == HEAP_BLOCKS && Holds(st'.table, l'.live)
    requires Keeps(l, l', pid, -1)
    requires FreeRun(st.table, s, Blocks(size)) && MallocFrame(st.mem, st'.mem, st.procs[pid].dir, s, Blocks(size))
    requires SameTables(st.mem, st'.mem, st.procs[pid].dir)
    ensures StructureOk(st', l', pid)
    ensures AllocsOk(l', pid, st.procs[pid].allocs)
    ensures OtherPagesOk(Flat(st.mem, st.procs[pid].dir), l', pid)
    ensures HeapPagesOk(Flat(st.mem, st.procs[pid].dir), st.procs[pid].allocs)
  {
    var p := st.procs[pid];
    assert PtPage(st.mem, p.dir, p.chunk, p.chunk) && PtPage(st.mem, p.dir, p.chunk, p.dir) && StructureOk(st, l, pid);
    FreshRunMissesPt(st, l, s, Blocks(size), pid, p.chunk);
    FreshRunMissesPt(st, l, s, Blocks(size), pid, p.dir);
    StructureKept(st, l, st', l', pid, -1);
    SlotsKept(l, l', pid, p.allocs);
    OtherPagesKept(Flat(st.mem, p.dir), l, l', pid, -1);
  }

  lemma MallocMapped(f: FlatMap, l: Ledger, pid: nat, allocs: seq<Allocation>, slot: nat, s: nat, size: Word)
    requires AllocsOk(l, pid, allocs) && HeapPagesOk(f, allocs) && OtherPagesOk(f, l, pid)
    requires slot < |allocs| && allocs[slot].ptr == 0
    requires InPool(Allocation(BlockAddrAt(s), size)) && s + Blocks(size) <= HEAP_BLOCKS
    requires Owns(l, s, Data(pid, slot)) && l.live[s] == Blocks(size)
    ensures var ptr := BlockAddrAt(s);
            var allocs', f' := allocs[slot := Allocation(ptr, size)], Mapped(f, ptr / PAGE, ptr, Blocks(size), USER_RW);
            AllocsOk(l, pid, allocs') && HeapPagesOk(f', allocs') && OtherPagesOk(f', l, pid)
  {
    var ptr := BlockAddrAt(s);
    MallocPages(f, allocs, slot, s, size);
    MappedHeapKeepsOthers(f, l, pid, ptr / PAGE, ptr, Blocks(size), USER_RW);
    assert SlotOk(l, pid, slot, Allocation(ptr, size));
  }

  lemma MallocKeeps(st: World, l: Ledger, pid: nat, size: Word, ptr: Word, st': World, l': Ledger)
    requires Inv(st, l) && MallocNext(st, l, pid, size, ptr, st', l')
    ensures Inv(st', l')
  {
    var n, s := Blocks(size), FirstFit(st.table, Blocks(size));
    if s < 0 {
      assert st'.procs == st.procs;
      assert st' == st;
    } else {
      MallocKeepsAll(st, l, pid, size, ptr, s, st', l');
    }
  }

  lemma MallocLedgerExact(st: World, l: Ledger, pid: nat, size: Word, s: nat, t': seq<Entry>, slot: nat)
    requires |st.table| == HEAP_BLOCKS && Holds(st.table, l.live) && l.live.Keys == l.owner.Keys
    requires pid in st.procs && s == FirstFit(st.table, Blocks(size)) && slot == FindSlot(st.procs[pid].allocs, 0)
    requires Blocks(size) >= 1 && FreeRun(st.table, s, Blocks(size))
    requires t' == if slot == |st.procs[pid].allocs| then st.table else Marked(st.table, s, Blocks(size))
    ensures var l' := MallocLedger(st, l, pid, size);
            Holds(t', l'.live) && l'.live.Keys == l'.owner.Keys && forall q :: Keeps(l, l', q, -1)
  {
    AddKeeps(st.table, l, s, Blocks(size), Data(pid, slot));
  }

  lemma MallocOther(st: World, l: Ledger, st': World, l': Ledger, pid: nat, s: nat, n: nat, q: nat)
    requires Inv(st, l) && SameProcs(st, pid, st') && q in st.procs && q != pid
    requires |st'.table| == HEAP_BLOCKS && Holds(st'.table, l'.live) && Keeps(l, l', q, -1)
    requires FreeRun(st.table, s, n) && MallocFrame(st.mem, st'.mem, st.procs[pid].dir, s, n)
    ensures ProcOk(st', l', q)
  {
    OthersSame(st, l, st'.mem, pid, s, n, q);
    Untouched(st, l, st', l', q);
  }

  lemma MallocKeepsAll(st: World, l: Ledger, pid: nat, size: Word, ptr: Word, s: nat, st': World, l': Ledger)
    requires Inv(st, l) && MallocNext(st, l, pid, size, ptr, st', l') && s == FirstFit(st.table, Blocks(size))
    ensures Inv(st', l')
  {
    var slot, p := FindSlot(st.procs[pid].allocs, 0), st.procs[pid];
    MallocLedgerExact(st, l, pid, size, s, st'.table, slot);
    MallocSelf(st, l, st', l', pid, s, size);
    if slot < |p.allocs| {
      MallocMapped(Flat(st.mem, p.dir), l', pid, p.allocs, slot, s, size);
    }
    assert ProcOk(st', l', pid);
    forall q | q in st'.procs && q != pid ensures ProcOk(st', l', q) {
      MallocOther(st, l, st', l', pid, s, Blocks(size), q);
    }
  }

  // ----- process_free -----

  /** Dropping one data allocation from the ledger. */
  lemma RemoveKeeps(t: seq<Entry>, l: Ledger, h: nat)
    requires Holds(t, l.live) && l.live.Keys == l.owner.Keys && h in l.live
    ensures Holds(Freed(t, h), Remove(l, {h}).live)
    ensures Remove(l, {h}).live.Keys == Remove(l, {h}).owner.Keys
    ensures forall q :: Keeps(l, Remove(l, {h}), q, h)
    ensures forall q :: !BelongsTo(l.owner[h], q) ==> Keeps(l, Remove(l, {h}), q, -1)
  {
    FreeKeeps(t, l.live, h);
  }

  /** Slots of one process never overlap: their heads are different live allocations. */
  lemma SlotsDisjoint(t: seq<Entry>, l: Ledger, pid: nat, allocs: seq<Allocation>, i: nat, j: nat, v: int)
    requires Holds(t, l.live) && AllocsOk(l, pid, allocs)
    requires i < |allocs| && j < |allocs| && InSlot(allocs[i], v) && InSlot(allocs[j], v)
    ensures i == j
  {
    assert SlotOk(l, pid, i, allocs[i]) && SlotOk(l, pid, j, allocs[j]);
    var b := v - HEAP_BASE / PAGE;
    assert Covers(l.live, BlockOf(allocs[i].ptr), b) && Covers(l.live, BlockOf(allocs[j].ptr), b);
    LiveDisjoint(t, l.live, BlockOf(allocs[i].ptr), BlockOf(allocs[j].ptr), b);
  }

  /** A pointer occupies at most one slot. */
  lemma SlotUnique(l: Ledger, pid: nat, allocs: seq<Allocation>, slot: nat)
    requires AllocsOk(l, pid, allocs) && slot < |allocs| && allocs[slot].ptr != 0
    ensures Unjoined(allocs, allocs[slot].ptr) == allocs[slot := EMPTY]
  {
    assert SlotOk(l, pid, slot, allocs[slot]);
    forall j | 0 <= j < |allocs| && allocs[j].ptr == allocs[slot].ptr ensures j == slot {
      assert SlotOk(l, pid, j, allocs[j]);
    }
  }

  lemma FreeSlots(l: Ledger, l': Ledger, pid: nat, allocs: seq<Allocation>, slot: nat)
    requires AllocsOk(l, pid, allocs) && slot < |allocs| && allocs[slot].ptr != 0
    requires SlotOk(l, pid, slot, allocs[slot]) && Keeps(l, l', pid, BlockOf(allocs[slot].ptr))
    ensures AllocsOk(l', pid, allocs[slot := EMPTY])
  {
    var allocs' := allocs[slot := EMPTY];
    forall j | 0 <= j < |allocs'| && allocs'[j].ptr != 0 ensures SlotOk(l', pid, j, allocs'[j]) {
      assert SlotOk(l, pid, j, allocs[j]);
    }
  }

  /** After process_free no page of the freed allocation is writeable, and the rest is as before. */
  lemma FreePages(t: seq<Entry>, l: Ledger, pid: nat, f: FlatMap, allocs: seq<Allocation>, slot: nat)
    requires Holds(t, l.live) && AllocsOk(l, pid, allocs) && HeapPagesOk(f, allocs)
    requires slot < |allocs| && allocs[slot].ptr != 0 && SlotOk(l, pid, slot, allocs[slot])
    ensures HeapPagesOk(AllocMapped(f, allocs[slot], 0), allocs[slot := EMPTY])
  {
    var a, allocs' := allocs[slot], allocs[slot := EMPTY];
    PoolRange(a);
    var g := AllocMapped(f, a, 0);
    forall v | HeapPage(v) ensures HeapEntryOk(allocs', v, g[v]) {
      MappedAt(f, a.ptr / PAGE, a.ptr, Blocks(a.size), 0, v);
      if InSlot(a, v) {
        TagGrants(v * PAGE, 0);
        if InAlloc(allocs', v) {
          var j :| 0 <= j < |allocs'| && InSlot(allocs'[j], v);
          SlotsDisjoint(t, l, pid, allocs, slot, j, v);
          assert false;
        }
      } else {
        AllocUpdated(allocs, slot, EMPTY, v);
      }
    }
  }

  lemma FreeSelf(st: World, l: Ledger, pid: nat, slot: nat, st': World, l': Ledger)
    requires Inv(st, l) && SameProcs(st, pid, st') && slot < MAX_ALLOCATIONS
    requires AllocsOk(l, pid, st.procs[pid].allocs) && st.procs[pid].allocs[slot].ptr != 0
    requires SlotOk(l, pid, slot, st.procs[pid].allocs[slot])
    requires Keeps(l, l', pid, BlockOf(st.procs[pid].allocs[slot].ptr))
    requires |st'.table| == HEAP_BLOCKS && Holds(st'.table, l'.live)
    requires SameTables(st.mem, st'.mem, st.procs[pid].dir) && OnlyTables(st.mem, st'.mem, st.procs[pid].dir)
    requires st'.procs[pid].allocs == st.procs[pid].allocs[slot := EMPTY]
    requires Flat(st'.mem, st.procs[pid].dir) ==
             AllocMapped(Flat(st.mem, st.procs[pid].dir), st.procs[pid].allocs[slot], 0)
    ensures ProcOk(st', l', pid)
  {
    hide Mapped; hide Flat; hide AlignAddress; hide TableAddr; hide HeapPagesOk; hide OtherPagesOk;
    var p := st.procs[pid];
    var a := p.allocs[slot];
    PoolRange(a);
    assert StructureOk(st, l, pid);
    StructureKept(st, l, st', l', pid, BlockOf(a.ptr));
    FreeSlots(l, l', pid, p.allocs, slot);
    FreePages(st.table, l, pid, Flat(st.mem, p.dir), p.allocs, slot);
    OtherPagesKept(Flat(st.mem, p.dir), l, l', pid, BlockOf(a.ptr));
    MappedHeapKeepsOthers(Flat(st.mem, p.dir), l', pid, a.ptr / PAGE, a.ptr, Blocks(a.size), 0);
  }

  /** A step that only writes tables of pid leaves the others' structures alone. */
  lemma TablesOthersSame(st: World, l: Ledger, m': Mem, pid: nat, q: nat)
    requires Inv(st, l) && pid in st.procs && q in st.procs && q != pid && OnlyTables(st.mem, m', st.procs[pid].dir)
    ensures PtSame(st, m', q)
  {
    forall a: PageAddr | PtPage(st.mem, st.procs[q].dir, st.procs[q].chunk, a) ensures SamePage(st.mem, m', a) {
      if OwnsPage(st.mem, st.procs[pid].dir, a) {
        PtDisjoint(st, l, pid, q, a);
        assert false;
      }
    }
  }

  lemma FreeOther(st: World, l: Ledger, pid: nat, st': World, l': Ledger, q: nat)
    requires Inv(st, l) && SameProcs(st, pid, st') && q in st.procs && q != pid
    requires |st'.table| == HEAP_BLOCKS && Holds(st'.table, l'.live) && Keeps(l, l', q, -1)
    requires OnlyTables(st.mem, st'.mem, st.procs[pid].dir)
    ensures ProcOk(st', l', q)
  {
    TablesOthersSame(st, l, st'.mem, pid, q);
    Untouched(st, l, st', l', q);
  }

  lemma FreeKeepsInv(st: World, l: Ledger, pid: nat, ptr: Word, st': World, l': Ledger)
    requires Inv(st, l) && FreeNext(st, l, pid, ptr, st', l')
    ensures Inv(st', l')
  {
    hide HeapPagesOk; hide OtherPagesOk; hide StructureOk;
    var allocs := st.procs[pid].allocs;
    var slot := FindSlot(allocs, ptr);
    if slot == |allocs| {
      assert st'.procs == st.procs;
      assert st' == st;
    } else {
      assert SlotOk(l, pid, slot, allocs[slot]);
      SlotUnique(l, pid, allocs, slot);
      FreeKeepsAll(st, l, pid, slot, st', l');
    }
  }

  lemma FreeKeepsAll(st: World, l: Ledger, pid: nat, slot: nat, st': World, l': Ledger)
    requires Inv(st, l) && SameProcs(st, pid, st') && slot < MAX_ALLOCATIONS
    requires AllocsOk(l, pid, st.procs[pid].allocs) && st.procs[pid].allocs[slot].ptr != 0
    requires SlotOk(l, pid, slot, st.procs[pid].allocs[slot])
    requires st'.table == Freed(st.table, BlockOf(st.procs[pid].allocs[slot].ptr))
    requires l' == Remove(l, {BlockOf(st.procs[pid].allocs[slot].ptr)})
    requires SameTables(st.mem, st'.mem, st.procs[pid].dir) && OnlyTables(st.mem, st'.mem, st.procs[pid].dir)
    requires st'.procs[pid].allocs == st.procs[pid].allocs[slot := EMPTY]
    requires Flat(st'.mem, st.procs[pid].dir) ==
             AllocMapped(Flat(st.mem, st.procs[pid].dir), st.procs[pid].allocs[slot], 0)
    ensures Inv(st', l')
  {
    RemoveKeeps(st.table, l, BlockOf(st.procs[pid].allocs[slot].ptr));
    FreeSelf(st, l, pid, slot, st', l');
    forall q | q in st'.procs && q != pid ensures ProcOk(st', l', q) {
      FreeOther(st, l, pid, st', l', q);
    }
  }

  // ----- Loading a program and its stack -----

  /** Given an allowed map, the map after the calls is allowed exactly when every entry that they leave is. */
  lemma PagesOkIff(f: FlatMap, l: Ledger, pid: nat, allocs: seq<Allocation>, ranges: seq<Range>)
    requires AllFit(ranges) && HeapPagesOk(f, allocs) && OtherPagesOk(f, l, pid)
    ensures HeapPagesOk(ApplyAll(f, ranges), allocs) && OtherPagesOk(ApplyAll(f, ranges), l, pid) <==>
            Harmless(l, pid, allocs, ranges)
  {
    hide ApplyAll; hide EntryOk; hide ImageFrame; hide HeapEntryOk; hide Mask;
    var g := ApplyAll(f, ranges);
    PagesAreEntries(f, l, pid, allocs);
    PagesAreEntries(g, l, pid, allocs);
    forall v | 0 <= v < PAGES
      ensures forall i :: Decides(ranges, i, v) ==> g[v] == ranges[i].Entry(v)
      ensures g[v] == f[v] || exists i :: Decides(ranges, i, v)
    {
      AppliedAt(f, ranges, v);
    }
    if Harmless(l, pid, allocs, ranges) {
      forall v | 0 <= v < PAGES ensures EntryOk(l, pid, allocs, v, g[v]) {
        if g[v] != f[v] {
          var i :| Decides(ranges, i, v);
        }
      }
    } else {
      var i, v :| 0 <= v < PAGES && Decides(ranges, i, v) && !EntryOk(l, pid, allocs, v, ranges[i].Entry(v));
      assert !EntryOk(l, pid, allocs, v, g[v]);
    }
  }

  lemma PagesAreEntries(f: FlatMap, l: Ledger, pid: nat, allocs: seq<Allocation>)
    ensures HeapPagesOk(f, allocs) && OtherPagesOk(f, l, pid) <==>
            forall v :: 0 <= v < PAGES ==> EntryOk(l, pid, allocs, v, f[v])
  {
    if forall v :: 0 <= v < PAGES ==> EntryOk(l, pid, allocs, v, f[v]) {
      assert HeapPagesOk(f, allocs);
    }
  }

  /** After calls of paging_map_to for pid the invariant holds exactly when every entry they leave is allowed. */
  lemma MappingKeepsIff(st: World, l: Ledger, pid: nat, ranges: seq<Range>, st': World)
    requires Inv(st, l) && Remapped(st, pid, ranges, st')
    ensures Inv(st', l) <==> Harmless(l, pid, st.procs[pid].allocs, ranges)
  {
    hide HeapPagesOk; hide OtherPagesOk; hide Harmless; hide Mapped; hide ApplyAll;
    var p := st.procs[pid];
    assert StructureOk(st, l, pid);
    StructureKept(st, l, st', l, pid, -1);
    PagesOkIff(Flat(st.mem, p.dir), l, pid, p.allocs, ranges);
    forall q | q in st'.procs && q != pid ensures ProcOk(st', l, q) {
      FreeOther(st, l, pid, st', l, q);
    }
    assert Inv(st', l) <==> ProcOk(st', l, pid);
  }

  lemma LoadKeeps(st: World, l: Ledger, pid: nat, ranges: seq<Range>, st': World, l': Ledger)
    requires Inv(st, l) && LoadNext(st, l, pid, ranges, st', l')
    ensures Inv(st', l')
  {
    MappingKeepsIff(st, l, pid, ranges, st');
  }

  // ----- Creating and destroying a process -----

  lemma SpawnLedgerExact(st: World, l: Ledger, pid: nat, dir: PageAddr, chunk: PageAddr, t': seq<Entry>, m': Mem)
    requires |st.table| == HEAP_BLOCKS && Holds(st.table, l.live) && l.live.Keys == l.owner.Keys
    requires Resident(t', m', dir, chunk) && BlocksAdded(st.table, t', m', dir, chunk)
    ensures var l' := SpawnLedger(l, m', dir, chunk, pid);
            Holds(t', l'.live) && l'.live.Keys == l'.owner.Keys && forall q :: Keeps(l, l', q, -1)
  {
    hide ReadWord; hide TableAddr; hide OwnsPage; hide Holds;
    var bs := PtBlocks(m', dir, chunk);
    forall b | b in bs ensures b < |st.table| && st.table[b] == FREE {
      assert BlockOf(BlockAddr(b)) == b;
    }
    forall i | 0 <= i < |st.table| ensures t'[i] == if i in bs then ChainEntry(0, 1) else st.table[i] {
      assert BlockOf(BlockAddr(i)) == i;
    }
    AddSingles(st.table, l.live, bs, t');
  }

  /** A directory that paging_new_4gb built for a process lets user-mode writes through. */
  lemma BuiltOpen(m: Mem, m': Mem, dir: PageAddr, chunk: PageAddr)
    requires MapBuilt(m, PRESENT + ACCESS_FROM_ALL, m', dir, chunk)
    ensures DirectoryOpen(m', dir)
  {
    forall i | 0 <= i < TABLE_LEN ensures Open(ReadWord(m', dir + 4 * i)) {
      DirectoryEntryOpen(TableAddr(m', dir, i));
    }
  }

  lemma DirectoryEntryOpen(table: PageAddr)
    ensures Open(Tag(Tag(table, PRESENT + ACCESS_FROM_ALL), WRITEABLE))
  {
    hide Tag; hide IsPresent; hide IsWriteable; hide IsUser;
    TwiceTagged(table, PRESENT + ACCESS_FROM_ALL, WRITEABLE);
    assert BitOr(5, 2) == 7;
    TagGrants(table, 7);
  }

  lemma SpawnStructure(st': World, l: Ledger, pid: nat)
    requires pid in st'.procs && DirectoryOpen(st'.mem, st'.procs[pid].dir)
    requires Resident(st'.table, st'.mem, st'.procs[pid].dir, st'.procs[pid].chunk)
    ensures StructureOk(st', SpawnLedger(l, st'.mem, st'.procs[pid].dir, st'.procs[pid].chunk, pid), pid)
  {
    hide ReadWord; hide TableAddr; hide SpawnLedger; hide HoldsPage; hide Open;
    var m, dir, chunk := st'.mem, st'.procs[pid].dir, st'.procs[pid].chunk;
    var l' := SpawnLedger(l, m, dir, chunk, pid);
    SpawnPage(m, dir, chunk, l, pid, chunk);
    SpawnPage(m, dir, chunk, l, pid, dir);
    forall i | 0 <= i < TABLE_LEN ensures HoldsPage(l', TableAddr(m, dir, i), TableOf(pid, i)) {
      SpawnPage(m, dir, chunk, l, pid, TableAddr(m, dir, i));
      assert PtOwner(m, dir, chunk, pid, TableAddr(m, dir, i)) == TableOf(pid, i);
    }
  }

  lemma SpawnPage(m: Mem, dir: PageAddr, chunk: PageAddr, l: Ledger, pid: nat, a: PageAddr)
    requires IsBlock(a) && PtPage(m, dir, chunk, a)
    ensures HoldsPage(SpawnLedger(l, m, dir, chunk, pid), a, PtOwner(m, dir, chunk, pid, a))
  {
    hide ReadWord; hide TableAddr; hide OwnsPage; hide PtOwner;
    assert BlockAddr(BlockOf(a)) == a && BlockOf(a) in PtBlocks(m, dir, chunk);
  }

  lemma SpawnPages(f: FlatMap, l: Ledger, pid: nat)
    requires IdentityMap(f, PRESENT + ACCESS_FROM_ALL)
    ensures HeapPagesOk(f, NoAllocs()) && OtherPagesOk(f, l, pid) && AllocsOk(l, pid, NoAllocs())
  {
    forall v | 0 <= v < PAGES ensures Mask(f[v]) == v * PAGE && !Open(f[v]) {
      TagGrants(v * PAGE, PRESENT + ACCESS_FROM_ALL);
    }
  }

  lemma SpawnOther(st: World, l: Ledger, pid: nat, dir: PageAddr, chunk: PageAddr, st': World, l': Ledger, q: nat)
    requires Inv(st, l) && q in st.procs && q in st'.procs && st'.procs[q] == st.procs[q]
    requires Resident(st'.table, st'.mem, dir, chunk) && BlocksAdded(st.table, st'.table, st'.mem, dir, chunk)
    requires forall a: PageAddr :: !PtPage(st'.mem, dir, chunk, a) ==> SamePage(st.mem, st'.mem, a)
    requires Holds(st'.table, l'.live) && Keeps(l, l', q, -1)
    ensures ProcOk(st', l', q)
  {
    forall a: PageAddr | PtPage(st.mem, st.procs[q].dir, st.procs[q].chunk, a) ensures SamePage(st.mem, st'.mem, a) {
      PtBlockOwned(st, l, q, a);
    }
    Untouched(st, l, st', l', q);
  }

  lemma SpawnKeeps(st: World, l: Ledger, pid: nat, dir: PageAddr, chunk: PageAddr, st': World, l': Ledger)
    requires Inv(st, l) && SpawnNext(st, l, pid, dir, chunk, st', l')
    ensures Inv(st', l')
  {
    SpawnLedgerExact(st, l, pid, dir, chunk, st'.table, st'.mem);
    BuiltOpen(st.mem, st'.mem, dir, chunk);
    SpawnStructure(st', l, pid);
    SpawnPages(Flat(st'.mem, dir), l', pid);
    assert ProcOk(st', l', pid);
    forall q | q in st'.procs && q != pid ensures ProcOk(st', l', q) {
      SpawnOther(st, l, pid, dir, chunk, st', l', q);
    }
  }

  lemma PtBlocksOwned(st: World, l: Ledger, pid: nat)
    requires Inv(st, l) && pid in st.procs
    ensures forall b :: b in PtBlocks(st.mem, st.procs[pid].dir, st.procs[pid].chunk) ==>
              b in l.live && l.live[b] == 1 && b in l.owner && BelongsTo(l.owner[b], pid)
  {
    forall b | b in PtBlocks(st.mem, st.procs[pid].dir, st.procs[pid].chunk)
      ensures b in l.live && l.live[b] == 1 && b in l.owner && BelongsTo(l.owner[b], pid)
    {
      PtBlockOwned(st, l, pid, BlockAddr(b));
      assert BlockOf(BlockAddr(b)) == b;
    }
  }

  lemma DestroyLedgerExact(t: seq<Entry>, l: Ledger, m: Mem, dir: PageAddr, chunk: PageAddr, pid: nat, t': seq<Entry>)
    requires Holds(t, l.live) && l.live.Keys == l.owner.Keys && Released(t, m, dir, chunk, t')
    requires forall b :: b in PtBlocks(m, dir, chunk) ==>
               b in l.live && l.live[b] == 1 && b in l.owner && BelongsTo(l.owner[b], pid)
    ensures var l' := Remove(l, PtBlocks(m, dir, chunk));
            Holds(t', l'.live) && l'.live.Keys == l'.owner.Keys && forall q :: q != pid ==> Keeps(l, l', q, -1)
  {
    RemoveSingles(t, l.live, PtBlocks(m, dir, chunk), t');
  }

  /** A process that runs no more may be taken out of the record before its blocks are freed. */
  lemma DetachKeeps(st: World, l: Ledger, pid: nat)
    requires Inv(st, l)
    ensures Inv(World(st.table, st.mem, st.procs - {pid}), l)
  {
    var st' := World(st.table, st.mem, st.procs - {pid});
    forall q | q in st'.procs ensures ProcOk(st', l, q) {
      assert ProcOk(st, l, q);
    }
  }

  lemma RemoveMore(l: Ledger, hs: set<nat>, h: nat)
    ensures Remove(Remove(l, hs), {h}) == Remove(l, hs + {h})
  {
    assert l.live - hs - {h} == l.live - (hs + {h});
    assert l.owner - hs - {h} == l.owner - (hs + {h});
  }

  lemma {:induction false} DisposeKeeps(st: World, l: Ledger, pid: nat, before: seq<nat>)
    requires Inv(st, l) && pid !in st.procs
    requires forall i :: 0 <= i < |before| ==> Disposable(l, before[i], pid)
    requires forall i, j :: 0 <= i < j < |before| ==> before[i] != before[j]
    ensures Inv(World(FreedAll(st.table, before), st.mem, st.procs), Remove(l, ToSet(before)))
    decreases |before|
  {
    if before == [] {
      assert Remove(l, ToSet(before)) == l;
    } else {
      var n := |before| - 1;
      DisposeKeeps(st, l, pid, before[..n]);
      RemoveMore(l, ToSet(before[..n]), before[n]);
      assert ToSet(before) == ToSet(before[..n]) + {before[n]};
      KernelFreeKeeps(World(FreedAll(st.table, before[..n]), st.mem, st.procs), Remove(l, ToSet(before[..n])),
                      before[n], World(FreedAll(st.table, before), st.mem, st.procs), Remove(l, ToSet(before)));
    }
  }

  /** The paging structure is still there, and still recorded, when the program's blocks have been freed. */
  lemma PtSurvives(st: World, l: Ledger, pid: nat, before: seq<nat>)
    requires Inv(st, l) && pid in st.procs
    requires forall i :: 0 <= i < |before| ==> Disposable(l, before[i], pid)
    requires forall i, j :: 0 <= i < j < |before| ==> before[i] != before[j]
    ensures var l1 := Remove(l, ToSet(before));
            && (forall b :: b in PtBlocks(st.mem, st.procs[pid].dir, st.procs[pid].chunk) ==>
                  b in l1.live && l1.live[b] == 1 && b in l1.owner && BelongsTo(l1.owner[b], pid))
    ensures Resident(FreedAll(st.table, before), st.mem, st.procs[pid].dir, st.procs[pid].chunk)
    ensures Inv(World(FreedAll(st.table, before), st.mem, st.procs - {pid}), Remove(l, ToSet(before)))
  {
    hide Inv; hide Resident; hide TableAddr; hide OwnsPage;
    var p, l1 := st.procs[pid], Remove(l, ToSet(before));
    forall a: PageAddr | PtPage(st.mem, p.dir, p.chunk, a)
      ensures IsBlock(a) && BlockOf(a) in l1.live && l1.live[BlockOf(a)] == 1
      ensures BlockOf(a) in l1.owner && BelongsTo(l1.owner[BlockOf(a)], pid)
    {
      PtBlockOwned(st, l, pid, a);
    }
    forall b | b in PtBlocks(st.mem, p.dir, p.chunk)
      ensures b in l1.live && l1.live[b] == 1 && b in l1.owner && BelongsTo(l1.owner[b], pid)
    {
      assert BlockOf(BlockAddr(b)) == b;
    }
    DetachKeeps(st, l, pid);
    DisposeKeeps(World(st.table, st.mem, st.procs - {pid}), l, pid, before);
    StillResident(st, l, pid, FreedAll(st.table, before), l1.live);
  }

  lemma StillResident(st: World, l: Ledger, pid: nat, t': seq<Entry>, live': Live)
    requires Inv(st, l) && pid in st.procs && |t'| == HEAP_BLOCKS && Holds(t', live')
    requires forall a: PageAddr :: PtPage(st.mem, st.procs[pid].dir, st.procs[pid].chunk, a) ==>
               IsBlock(a) && BlockOf(a) in live' && live'[BlockOf(a)] == 1
    ensures Resident(t', st.mem, st.procs[pid].dir, st.procs[pid].chunk)
  {
    assert StructureOk(st, l, pid);
    ResidentKept(st.table, st.mem, t', st.mem, live', st.procs[pid].dir, st.procs[pid].chunk);
  }

  lemma DestroyKeeps(st: World, l: Ledger, pid: nat, before: seq<nat>, st': World, l': Ledger)
    requires Inv(st, l) && DestroyNext(st, l, pid, before, st', l')
    ensures Inv(st', l')
  {
    hide ReadWord; hide TableAddr; hide OwnsPage; hide FreedAll;
    PtSurvives(st, l, pid, before);
    var st1, l1 := World(FreedAll(st.table, before), st.mem, st.procs - {pid}), Remove(l, ToSet(before));
    DestroyLedgerExact(st1.table, l1, st.mem, st.procs[pid].dir, st.procs[pid].chunk, pid, st'.table);
    forall q | q in st'.procs ensures ProcOk(st', l', q) {
      assert PtSame(st1, st'.mem, q);
      Untouched(st1, l1, st', l', q);
    }
  }

  // ----- Kernel allocations and stores -----

  lemma ZeroMissesPt(st: World, l: Ledger, s: nat, size: Word, m': Mem, q: nat)
    requires Inv(st, l) && FreeRun(st.table, s, Blocks(size)) && s < HEAP_BLOCKS && size <= Blocks(size) * BLOCK_SIZE
    requires BlockAddr(s) + size <= WORD_LIMIT && m' == Zeroed(st.mem, BlockAddr(s), size) && q in st.procs
    ensures PtSame(st, m', q)
  {
    hide Inv; hide TableAddr; hide OwnsPage;
    forall a: PageAddr | PtPage(st.mem, st.procs[q].dir, st.procs[q].chunk, a) ensures SamePage(st.mem, m', a) {
      FreshRunMissesPt(st, l, s, Blocks(size), q, a);
    }
  }

  lemma KernelAllocKeeps(st: World, l: Ledger, size: Word, owner: Owner, st': World, l': Ledger)
    requires Inv(st, l) && KernelAllocNext(st, l, size, owner, st', l')
    ensures Inv(st', l')
  {
    var s := FirstFit(st.table, Blocks(size));
    if s >= 0 {
      AddKeeps(st.table, l, s, Blocks(size), owner);
      forall q | q in st'.procs ensures ProcOk(st', l', q) {
        ZeroMissesPt(st, l, s, size, st'.mem, q);
        Untouched(st, l, st', l', q);
      }
    }
  }

  lemma KernelFreeKeeps(st: World, l: Ledger, head: nat, st': World, l': Ledger)
    requires Inv(st, l) && KernelFreeNext(st, l, head, st', l')
    ensures Inv(st', l')
  {
    RemoveKeeps(st.table, l, head);
    forall q | q in st'.procs ensures ProcOk(st', l', q) {
      assert PtSame(st, st'.mem, q);
      Untouched(st, l, st', l', q);
    }
  }

  lemma StoreKeeps(st: World, l: Ledger, st': World, l': Ledger)
    requires Inv(st, l) && StoreNext(st, l, st', l')
    ensures Inv(st', l')
  {
    forall q | q in st'.procs ensures ProcOk(st', l', q) {
      Untouched(st, l, st', l', q);
    }
  }

  // ----- Whole runs -----

  lemma NextKeeps(st: World, l: Ledger, op: Op, st': World, l': Ledger)
    requires Inv(st, l) && Next(st, l, op, st', l')
    ensures Inv(st', l')
  {
    match op
    case Spawn(pid, dir, chunk) => SpawnKeeps(st, l, pid, dir, chunk, st', l');
    case Load(pid, ranges) => LoadKeeps(st, l, pid, ranges, st', l');
    case Malloc(pid, size, ptr) => MallocKeeps(st, l, pid, size, ptr, st', l');
    case Free(pid, ptr) => FreeKeepsInv(st, l, pid, ptr, st', l');
    case Destroy(pid, before) => DestroyKeeps(st, l, pid, before, st', l');
    case KernelAlloc(size, owner) => KernelAllocKeeps(st, l, size, owner, st', l');
    case KernelFree(head) => KernelFreeKeeps(st, l, head, st', l');
    case Store => StoreKeeps(st, l, st', l');
  }

  /** The machine after kheap_init: an all-free table, no process. */
  ghost predicate Boot(st: World, l: Ledger) {
    st.table == AllFree(HEAP_BLOCKS) && st.procs == map[] && l == Ledger(map[], map[])
  }

  datatype Moment = Moment(st: World, l: Ledger)

  /** Moments joined by steps. */
  ghost predicate IsPath(run: seq<Moment>, ops: seq<Op>) {
    && |run| == |ops| + 1
    && forall i :: 0 <= i < |ops| ==>
         |run[i].st.table| == HEAP_BLOCKS && Next(run[i].st, run[i].l, ops[i], run[i + 1].st, run[i + 1].l)
  }

  /** A run: a path from boot. */
  ghost predicate IsRun(run: seq<Moment>, ops: seq<Op>) {
    IsPath(run, ops) && Boot(run[0].st, run[0].l)
  }

  /** The steps ops lead from one moment to the other. */
  ghost predicate Leads(a: Moment, ops: seq<Op>, b: Moment) {
    exists run: seq<Moment> :: IsPath(run, ops) && run[0] == a && run[|ops|] == b
  }

  lemma LeadsNowhere(a: Moment)
    ensures Leads(a, [], a)
  {
    assert IsPath([a], []);
  }

  lemma LeadsFurther(a: Moment, ops: seq<Op>, b: Moment, op: Op, c: Moment)
    requires Leads(a, ops, b) && |b.st.table| == HEAP_BLOCKS && Next(b.st, b.l, op, c.st, c.l)
    ensures Leads(a, ops + [op], c)
  {
    hide Next;
    var run :| IsPath(run, ops) && run[0] == a && run[|ops|] == b;
    assert IsPath(run + [c], ops + [op]);
  }

  lemma {:induction false} RunInv(run: seq<Moment>, ops: seq<Op>, i: nat)
    requires IsRun(run, ops) && i < |run|
    ensures Inv(run[i].st, run[i].l)
  {
    if i == 0 {
      FreshHolds(HEAP_BLOCKS);
    } else {
      RunInv(run, ops, i - 1);
      NextKeeps(run[i - 1].st, run[i - 1].l, ops[i - 1], run[i].st, run[i].l);
    }
  }

  /** A user-mode write of process pid goes through at virtual address v: both levels let it. */
  ghost predicate CanWrite(st: World, pid: nat, v: Word) {
    && pid in st.procs
    && Open(ReadWord(st.mem, st.procs[pid].dir + 4 * DirectoryIndex(v)))
    && Open(Flat(st.mem, st.procs[pid].dir)[v / PAGE])
  }

  /** The physical address behind a virtual address of a process. */
  ghost function PhysicalOf(st: World, pid: nat, v: Word): Word
    requires pid in st.procs
  {
    Translate(Flat(st.mem, st.procs[pid].dir), v)
  }

  /** The physical page behind a virtual address of a process. */
  ghost function FrameOf(st: World, pid: nat, v: Word): PageAddr
    requires pid in st.procs
  {
    Mask(Flat(st.mem, st.procs[pid].dir)[v / PAGE])
  }

  /** Isolation at one address: a heap page can be written exactly when it lies in a live allocation of the process, and
      then leads to itself; any other address that can be written leads into the image of the process. */
  ghost predicate IsolatedAt(st: World, l: Ledger, pid: nat, v: Word)
    requires pid in st.procs
  {
    if HeapPage(v / PAGE) then
      && (CanWrite(st, pid, v) <==> InAlloc(st.procs[pid].allocs, v / PAGE))
      && (CanWrite(st, pid, v) ==> FrameOf(st, pid, v) == v / PAGE * PAGE)
    else CanWrite(st, pid, v) ==> ImageFrame(l, pid, FrameOf(st, pid, v))
  }

  ghost predicate Isolated(st: World, l: Ledger) {
    forall pid, v: Word :: pid in st.procs ==> IsolatedAt(st, l, pid, v)
  }

  /** Where the directory lets everything through, isolation of a process is a matter of the entries of its tables. */
  lemma IsolatedIsPages(st: World, l: Ledger, pid: nat)
    requires pid in st.procs && DirectoryOpen(st.mem, st.procs[pid].dir)
    ensures (forall v: Word :: IsolatedAt(st, l, pid, v)) <==>
              HeapPagesOk(Flat(st.mem, st.procs[pid].dir), st.procs[pid].allocs) &&
              OtherPagesOk(Flat(st.mem, st.procs[pid].dir), l, pid)
  {
    hide ReadWord; hide HeapPage; hide HeapPagesOk; hide OtherPagesOk; hide InAlloc; hide ImageFrame; hide Open;
    hide Mask;
    var f, allocs := Flat(st.mem, st.procs[pid].dir), st.procs[pid].allocs;
    PagesAreEntries(f, l, pid, allocs);
    forall v: Word ensures IsolatedAt(st, l, pid, v) <==> EntryOk(l, pid, allocs, v / PAGE, f[v / PAGE]) {
      assert Open(ReadWord(st.mem, st.procs[pid].dir + 4 * DirectoryIndex(v)));
    }
    if forall v: Word :: IsolatedAt(st, l, pid, v) {
      forall p | 0 <= p < PAGES ensures EntryOk(l, pid, allocs, p, f[p]) {
        var v: Word := p * PAGE;
        assert IsolatedAt(st, l, pid, v);
      }
    }
  }

  lemma InvIsolated(st: World, l: Ledger)
    requires Inv(st, l)
    ensures Isolated(st, l)
  {
    hide IsolatedAt;
    forall pid, v: Word | pid in st.procs ensures IsolatedAt(st, l, pid, v) {
      assert ProcOk(st, l, pid) && StructureOk(st, l, pid);
      IsolatedIsPages(st, l, pid);
    }
  }

  /** The exact condition on loading: from an isolated moment of a run, the system is isolated after calls of
      paging_map_to for pid exactly when every entry they leave is allowed. Nothing in the code checks this of a program
      header. */
  lemma MappingIsolatesIff(st: World, l: Ledger, pid: nat, ranges: seq<Range>, st': World)
    requires Remapped(st, pid, ranges, st')
    requires Inv(st, l)
    ensures Isolated(st', l) <==> Harmless(l, pid, st.procs[pid].allocs, ranges)
  {
    hide HeapPagesOk; hide OtherPagesOk; hide Harmless; hide Mapped; hide ApplyAll; hide IsolatedAt;
    var p := st.procs[pid];
    MappingKeepsIff(st, l, pid, ranges, st');
    if Harmless(l, pid, p.allocs, ranges) {
      InvIsolated(st', l);
    }
    assert ProcOk(st, l, pid) && StructureOk(st, l, pid);
    OpenKept(st.mem, st'.mem, p.dir);
    IsolatedIsPages(st', l, pid);
    PagesOkIff(Flat(st.mem, p.dir), l, pid, p.allocs, ranges);
  }

  /** The page belongs to a live allocation recorded as data or image of the process; so it is no part of the block
      table, of the kernel's code or of any record that the kernel keeps in the heap. */
  ghost predicate OwnFrame(l: Ledger, pid: nat, frame: PageAddr) {
    IsBlock(frame) && exists h :: OwnedBy(l, pid, h, BlockOf(frame))
  }

  ghost predicate OwnedBy(l: Ledger, pid: nat, h: nat, b: nat) {
    Covers(l.live, h, b) && h in l.owner && BelongsTo(l.owner[h], pid) && (l.owner[h].Data? || l.owner[h].Image?)
  }

  /** Isolation: at every moment of every run,
      a heap page can be written in a process exactly when it lies in one of its live allocations, and leads to itself;
      whatever else it can write is its image, so that all of it belongs to the process;
      whatever two different processes can write lies in different physical pages;
      and nothing that any process can write is a page of any paging structure. */
  lemma Isolation(run: seq<Moment>, ops: seq<Op>, i: nat)
    requires IsRun(run, ops) && i < |run|
    ensures var st := run[i].st;
            && Isolated(st, run[i].l)
            && (forall p, v: Word :: CanWrite(st, p, v) ==> OwnFrame(run[i].l, p, FrameOf(st, p, v)))
            && (forall p, q, v: Word, w: Word :: CanWrite(st, p, v) && CanWrite(st, q, w) && p != q ==>
                  FrameOf(st, p, v) != FrameOf(st, q, w))
            && (forall p, q, v: Word, a: PageAddr ::
                  CanWrite(st, p, v) && q in st.procs && PtPage(st.mem, st.procs[q].dir, st.procs[q].chunk, a) ==>
                  FrameOf(st, p, v) != a)
  {
    RunInv(run, ops, i);
    var st, l := run[i].st, run[i].l;
    InvIsolated(st, l);
    forall p, v: Word | CanWrite(st, p, v) ensures OwnFrame(l, p, FrameOf(st, p, v)) {
      var h := WriteableOwned(st, l, p, v);
    }
    forall p, q, v: Word, w: Word | CanWrite(st, p, v) && CanWrite(st, q, w) && p != q
      ensures FrameOf(st, p, v) != FrameOf(st, q, w)
    {
      var h := WriteableOwned(st, l, p, v);
      var k := WriteableOwned(st, l, q, w);
      if FrameOf(st, p, v) == FrameOf(st, q, w) {
        LiveDisjoint(st.table, l.live, h, k, BlockOf(FrameOf(st, p, v)));
        assert false;
      }
    }
    forall p, q, v: Word, a: PageAddr |
      CanWrite(st, p, v) && q in st.procs && PtPage(st.mem, st.procs[q].dir, st.procs[q].chunk, a)
      ensures FrameOf(st, p, v) != a
    {
      WriteableNotPt(st, l, p, v, q, a);
    }
  }

  /** The physical page behind a writeable address is in a live allocation recorded as data or image of that process. */
  lemma WriteableOwned(st: World, l: Ledger, pid: nat, v: Word) returns (h: nat)
    requires Inv(st, l) && CanWrite(st, pid, v)
    ensures IsBlock(FrameOf(st, pid, v)) && OwnedBy(l, pid, h, BlockOf(FrameOf(st, pid, v)))
  {
    assert ProcOk(st, l, pid);
    if HeapPage(v / PAGE) {
      h := HeapPageOwned(Flat(st.mem, st.procs[pid].dir), l, pid, st.procs[pid].allocs, v / PAGE);
    } else {
      assert ImageFrame(l, pid, FrameOf(st, pid, v));
      h :| Covers(l.live, h, BlockOf(FrameOf(st, pid, v))) && Owns(l, h, Image(pid));
    }
  }

  lemma HeapPageOwned(f: FlatMap, l: Ledger, pid: nat, allocs: seq<Allocation>, page: nat) returns (h: nat)
    requires HeapPagesOk(f, allocs) && AllocsOk(l, pid, allocs) && HeapPage(page) && Open(f[page])
    ensures IsBlock(Mask(f[page])) && Covers(l.live, h, BlockOf(Mask(f[page])))
    ensures h in l.owner && BelongsTo(l.owner[h], pid) && l.owner[h].Data?
  {
    var slot :| 0 <= slot < |allocs| && InSlot(allocs[slot], page);
    assert SlotOk(l, pid, slot, allocs[slot]);
    h := BlockOf(allocs[slot].ptr);
    assert BlockOf(Mask(f[page])) == page - HEAP_BASE / PAGE;
  }

  lemma WriteableNotPt(st: World, l: Ledger, p: nat, v: Word, q: nat, a: PageAddr)
    requires Inv(st, l) && CanWrite(st, p, v)
    requires q in st.procs && PtPage(st.mem, st.procs[q].dir, st.procs[q].chunk, a)
    ensures FrameOf(st, p, v) != a
  {
    var h := WriteableOwned(st, l, p, v);
    PtBlockOwned(st, l, q, a);
    if FrameOf(st, p, v) == a {
      assert Covers(l.live, BlockOf(a), BlockOf(a));
      LiveDisjoint(st.table, l.live, h, BlockOf(a), BlockOf(a));
      assert false;
    }
  }

  /** So a store by a user program to an address it can write is a legal step: no program can rewrite a page table. */
  lemma UserStoreIsLegal(st: World, l: Ledger, pid: nat, v: Word, addr: Word, val: Byte, st': World)
    requires Inv(st, l) && CanWrite(st, pid, v) && addr == PhysicalOf(st, pid, v)
    requires st' == World(st.table, Stored(st.mem, addr, val), st.procs)
    ensures StoreNext(st, l, st', l)
  {
    TranslateInFrame(Flat(st.mem, st.procs[pid].dir), v);
    forall q | q in st.procs ensures PtSame(st, st'.mem, q) {
      forall a: PageAddr | PtPage(st.mem, st.procs[q].dir, st.procs[q].chunk, a) ensures SamePage(st.mem, st'.mem, a) {
        WriteableNotPt(st, l, pid, v, q, a);
        StoreElsewhere(st.mem, addr, val, a);
      }
    }
  }

  /** The condition on loading is needed: one page outside the heap mapped writeable to the directory of the process
      lets the process write its own directory. */
  lemma HarmfulMapping(st: World, l: Ledger, pid: nat, v: Word, ranges: seq<Range>, st': World)
    requires !HeapPage(v / PAGE) && pid in st.procs
    requires ranges == [Range(v / PAGE, st.procs[pid].dir, 1, USER_RW)] && Remapped(st, pid, ranges, st')
    requires Inv(st, l)
    ensures CanWrite(st', pid, v) && FrameOf(st', pid, v) == st.procs[pid].dir
    ensures !Inv(st', l) && !Isolated(st', l) && !Harmless(l, pid, st.procs[pid].allocs, ranges)
  {
    hide Inv; hide PtPage; hide ReadWord; hide Isolated; hide Harmless; hide HeapPage; hide Mask; hide Open; hide Tag;
    hide ApplyAll;
    var p := st.procs[pid];
    OneEntry(Flat(st.mem, p.dir), v / PAGE, p.dir);
    StillOpen(st, l, pid, st'.mem, v);
    MappingKeepsIff(st, l, pid, ranges, st');
    MappingIsolatesIff(st, l, pid, ranges, st');
    NoOpenDirectory(st', l, pid, v);
  }

  /** A word that the kernel stores into a table slot is a mapping of one page. */
  lemma StoreIsMapping(st: World, l: Ledger, pid: nat, page: nat, w: Word, st': World)
    requires pid in st.procs && page < PAGES && st'.table == st.table && st'.procs == st.procs
    requires st'.mem == WriteWord(st.mem, SlotAddr(st.mem, st.procs[pid].dir, page), w)
    requires Inv(st, l)
    ensures Remapped(st, pid, [Range(page, Mask(w), 1, w % 4096)], st')
  {
    hide Mask; hide WriteWord; hide ApplyAll;
    var dir := st.procs[pid].dir;
    assert DirOk(st.mem, dir) by { CallsAreReady(st, l, pid); }
    SetRefinesUpdate(st.mem, dir, page, w);
    SetTouchesTable(st.mem, dir, page, w);
    OneWord(Flat(st.mem, dir), page, w);
  }

  lemma WordIsTag(w: Word)
    ensures Tag(Mask(w), w % 4096) == w && Mask(w) + PAGE <= WORD_LIMIT
  {
  }

  /** The one page that a range of length one contains. */
  lemma OnePage(page: nat, frame: PageAddr, flags: Word)
    requires page < PAGES
    ensures forall v :: 0 <= v < PAGES ==> (Range(page, frame, 1, flags).Contains(v) <==> v == page)
    ensures frame + PAGE <= WORD_LIMIT ==> Range(page, frame, 1, flags).Entry(page) == Tag(frame, flags)
  {
  }

  lemma OneWord(f: FlatMap, page: nat, w: Word)
    requires page < PAGES
    ensures AllFit([Range(page, Mask(w), 1, w % 4096)])
    ensures ApplyAll(f, [Range(page, Mask(w), 1, w % 4096)]) == f[page := w]
  {
    hide Mask; hide Tag; hide Range.Contains; hide Range.Entry; hide Range.Apply;
    var r := Range(page, Mask(w), 1, w % 4096);
    WordIsTag(w);
    OnePage(page, Mask(w), w % 4096);
    forall v | 0 <= v < PAGES ensures ApplyAll(f, [r])[v] == if v == page then w else f[v] {
      AppliedAt(f, [r], v);
      if v == page { assert Decides([r], 0, v); }
    }
  }

  lemma TwoPages(p: nat, q: nat, v: Word, w: Word)
    requires p < PAGES && q < PAGES && p != q
    ensures var ranges := [Range(p, Mask(v), 1, v % 4096), Range(q, Mask(w), 1, w % 4096)];
            forall i, x :: 0 <= x < PAGES ==> (Decides(ranges, i, x) <==> (i == 0 && x == p) || (i == 1 && x == q))
  {
    hide Mask; hide Range.Contains;
    OnePage(p, Mask(v), v % 4096);
    OnePage(q, Mask(w), w % 4096);
    var ranges := [Range(p, Mask(v), 1, v % 4096), Range(q, Mask(w), 1, w % 4096)];
    assert ranges[0].Contains(p) && !ranges[1].Contains(p) && ranges[1].Contains(q);
  }

  /** Two words stored one after the other into the table slots of different pages. */
  lemma TwoStoresAreMapping(st: World, l: Ledger, pid: nat, p: nat, q: nat, v: Word, w: Word, ranges: seq<Range>,
                            st': World)
    requires ranges == [Range(p, Mask(v), 1, v % 4096), Range(q, Mask(w), 1, w % 4096)]
    requires pid in st.procs && p < PAGES && q < PAGES && st'.table == st.table && st'.procs == st.procs
    requires var m1 := WriteWord(st.mem, SlotAddr(st.mem, st.procs[pid].dir, p), v);
             st'.mem == WriteWord(m1, SlotAddr(st.mem, st.procs[pid].dir, q), w)
    requires Inv(st, l)
    ensures Remapped(st, pid, ranges, st')
  {
    hide Mask; hide WriteWord; hide ApplyAll; hide Inv;
    var dir := st.procs[pid].dir;
    var m1 := WriteWord(st.mem, SlotAddr(st.mem, dir, p), v);
    var r, s := Range(p, Mask(v), 1, v % 4096), Range(q, Mask(w), 1, w % 4096);
    assert DirOk(st.mem, dir) by { CallsAreReady(st, l, pid); }
    SetRefinesUpdate(st.mem, dir, p, v);
    SetTouchesTable(st.mem, dir, p, v);
    SameTablesOk(st.mem, m1, dir);
    assert SlotAddr(m1, dir, q) == SlotAddr(st.mem, dir, q);
    SetRefinesUpdate(m1, dir, q, w);
    SetTouchesTable(m1, dir, q, w);
    OnlyTablesTrans(st.mem, m1, st'.mem, dir);
    OneWord(Flat(st.mem, dir), p, v);
    OneWord(Flat(m1, dir), q, w);
    ApplyOneMore(Flat(st.mem, dir), [r], s);
    ApplyOneMore(Flat(m1, dir), [], s);
    ApplyNothing(Flat(m1, dir));
    assert [r] + [s] == [r, s] && [] + [s] == [s];
  }

  lemma ApplyNothing(f: FlatMap)
    ensures ApplyAll(f, []) == f
  {
  }

  /** A count and a pointer stored by the kernel into the table slots of two pages: the system is isolated afterwards
      exactly when both words are allowed entries. */
  lemma KernelStoresIff(st: World, l: Ledger, pid: nat, p: nat, q: nat, v: Word, w: Word, st': World)
    requires pid in st.procs && p < PAGES && q < PAGES && p != q && st'.table == st.table && st'.procs == st.procs
    requires var m1 := WriteWord(st.mem, SlotAddr(st.mem, st.procs[pid].dir, p), v);
             st'.mem == WriteWord(m1, SlotAddr(st.mem, st.procs[pid].dir, q), w)
    requires Inv(st, l)
    ensures Isolated(st', l) <==>
              EntryOk(l, pid, st.procs[pid].allocs, p, v) && EntryOk(l, pid, st.procs[pid].allocs, q, w)
  {
    hide Inv; hide Isolated; hide Remapped; hide EntryOk; hide WriteWord; hide Mask; hide Tag; hide Decides;
    hide Range.Contains; hide Range.Entry;
    var ranges := [Range(p, Mask(v), 1, v % 4096), Range(q, Mask(w), 1, w % 4096)];
    TwoStoresAreMapping(st, l, pid, p, q, v, w, ranges, st');
    MappingIsolatesIff(st, l, pid, ranges, st');
    WordIsTag(v);
    WordIsTag(w);
    OnePage(p, Mask(v), v % 4096);
    OnePage(q, Mask(w), w % 4096);
    TwoPages(p, q, v, w);
    assert ranges[0].Entry(p) == v && ranges[1].Entry(q) == w;
    if Harmless(l, pid, st.procs[pid].allocs, ranges) {
      assert Decides(ranges, 0, p) && Decides(ranges, 1, q);
    }
  }

  /** Stores by the kernel are not confined as the program's own are: after a word stored into the table slot of a page
      the system is isolated exactly when that word is an allowed entry of the page. */
  lemma KernelStoreIff(st: World, l: Ledger, pid: nat, page: nat, w: Word, st': World)
    requires pid in st.procs && page < PAGES && st'.table == st.table && st'.procs == st.procs
    requires st'.mem == WriteWord(st.mem, SlotAddr(st.mem, st.procs[pid].dir, page), w)
    requires Inv(st, l)
    ensures Isolated(st', l) <==> EntryOk(l, pid, st.procs[pid].allocs, page, w)
  {
    hide Inv; hide Isolated; hide Remapped; hide EntryOk; hide WriteWord; hide Mask; hide Tag;
    hide Range.Contains; hide Range.Entry;
    var r := Range(page, Mask(w), 1, w % 4096);
    StoreIsMapping(st, l, pid, page, w, st');
    MappingIsolatesIff(st, l, pid, [r], st');
    WordIsTag(w);
    OnePage(page, Mask(w), w % 4096);
    assert [r][0] == r && r.Entry(page) == w;
    forall i, v | 0 <= v < PAGES ensures Decides([r], i, v) <==> i == 0 && v == page {
    }
    if Harmless(l, pid, st.procs[pid].allocs, [r]) {
      assert Decides([r], 0, page);
    }
  }

  /** So one word, 7, stored by the kernel into the slot of a page outside the heap lets the process write the physical
      page 0. A system call that stores a count at an address the program names is such a store. */
  lemma KernelStoreHarm(st: World, l: Ledger, pid: nat, v: Word, st': World)
    requires !HeapPage(v / PAGE) && pid in st.procs && st'.table == st.table && st'.procs == st.procs
    requires st'.mem == WriteWord(st.mem, SlotAddr(st.mem, st.procs[pid].dir, v / PAGE), 7)
    requires Inv(st, l)
    ensures CanWrite(st', pid, v) && FrameOf(st', pid, v) == 0 && !Isolated(st', l)
  {
    hide Inv; hide Isolated; hide WriteWord; hide ReadWord; hide HeapPage; hide ApplyAll; hide EntryOk; hide Mask;
    hide Open;
    var dir := st.procs[pid].dir;
    StoreIsMapping(st, l, pid, v / PAGE, 7, st');
    OneWord(Flat(st.mem, dir), v / PAGE, 7);
    StillOpen(st, l, pid, st'.mem, v);
    SevenNotAllowed(l, pid, st.procs[pid].allocs, v / PAGE);
    KernelStoreIff(st, l, pid, v / PAGE, 7, st');
  }

  lemma SevenNotAllowed(l: Ledger, pid: nat, allocs: seq<Allocation>, page: nat)
    requires !HeapPage(page)
    ensures Open(7) && Mask(7) == 0 && !EntryOk(l, pid, allocs, page, 7)
  {
    assert !IsBlock(0);
  }

  lemma OneEntry(f: FlatMap, page: nat, frame: PageAddr)
    requires page < PAGES
    ensures AllFit([Range(page, frame, 1, USER_RW)])
    ensures ApplyAll(f, [Range(page, frame, 1, USER_RW)])[page] == Tag(frame, USER_RW)
    ensures Mask(Tag(frame, USER_RW)) == frame && Open(Tag(frame, USER_RW))
  {
    var ranges := [Range(page, frame, 1, USER_RW)];
    AppliedAt(f, ranges, page);
    assert (page - page) % PAGES == 0;
    assert Decides(ranges, 0, page);
    TagGrants(frame, USER_RW);
  }

  lemma StillOpen(st: World, l: Ledger, pid: nat, m': Mem, v: Word)
    requires Inv(st, l) && pid in st.procs && SamePage(st.mem, m', st.procs[pid].dir)
    ensures Open(ReadWord(m', st.procs[pid].dir + 4 * DirectoryIndex(v)))
  {
    assert StructureOk(st, l, pid);
    OpenKept(st.mem, m', st.procs[pid].dir);
  }

  lemma NoOpenDirectory(st: World, l: Ledger, pid: nat, v: Word)
    requires CanWrite(st, pid, v) && FrameOf(st, pid, v) == st.procs[pid].dir
    ensures !Inv(st, l)
  {
    if Inv(st, l) {
      assert PtPage(st.mem, st.procs[pid].dir, st.procs[pid].chunk, st.procs[pid].dir);
      WriteableNotPt(st, l, pid, v, pid, st.procs[pid].dir);
      assert false;
    }
  }

  /** At every moment a process may call process_malloc and process_free: the conditions of the methods hold. */
  lemma CallsAreReady(st: World, l: Ledger, pid: nat)
    requires Inv(st, l) && pid in st.procs
    ensures AllocsOk(l, pid, st.procs[pid].allocs)
    ensures Resident(st.table, st.mem, st.procs[pid].dir, st.procs[pid].chunk)
    ensures |st.procs[pid].allocs| == MAX_ALLOCATIONS
    ensures forall i :: 0 <= i < MAX_ALLOCATIONS && st.procs[pid].allocs[i].ptr != 0 ==> InPool(st.procs[pid].allocs[i])
  {
    assert ProcOk(st, l, pid);
    forall i | 0 <= i < MAX_ALLOCATIONS && st.procs[pid].allocs[i].ptr != 0 ensures InPool(st.procs[pid].allocs[i]) {
      assert SlotOk(l, pid, i, st.procs[pid].allocs[i]);
    }
  }
}
