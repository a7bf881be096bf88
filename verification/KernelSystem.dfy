/**
 The kernel with its processes as objects: every operation, run on the machine itself, is one step of the
 isolation argument.
 */
module KernelSystem {
  import opened Bits
  import opened Memory
  import opened BlockTable
  import opened KernelHeap
  import opened PageMap
  import opened Kernel
  import opened Processes
  import opened Isolation
  import opened Termination
  import opened ElfLoad
  import opened CopyString
  import opened Lifetime
  import opened Status

  lemma MallocStep(st: World, l: Ledger, pid: nat, size: Word, ptr: Word, st': World, l': Ledger)
    requires Inv(st, l) && SameProcs(st, pid, st') && Safe(st.table, size)
    requires MallocPost(st.table, st.mem, st.procs[pid].dir, st.procs[pid].allocs, size,
                        st'.table, st'.mem, st'.procs[pid].allocs, ptr)
    requires l' == MallocLedger(st, l, pid, size)
    ensures Next(st, l, Isolation.Op.Malloc(pid, size, ptr), st', l') && Inv(st', l')
  {
    NextKeeps(st, l, Isolation.Op.Malloc(pid, size, ptr), st', l');
  }

  lemma FreeStep(st: World, l: Ledger, pid: nat, ptr: Word, st': World, l': Ledger)
    requires Inv(st, l) && SameProcs(st, pid, st') && ptr != 0 && AllocsOk(l, pid, st.procs[pid].allocs)
    requires FreePost(st.table, st.mem, st.procs[pid].dir, st.procs[pid].allocs, ptr,
                      st'.table, st'.mem, st'.procs[pid].allocs)
    requires l' == FreeLedger(st, l, pid, ptr)
    ensures Next(st, l, Isolation.Op.Free(pid, ptr), st', l') && Inv(st', l')
  {
    NextKeeps(st, l, Isolation.Op.Free(pid, ptr), st', l');
  }

  lemma SpawnStep(st: World, l: Ledger, pid: nat, dir: PageAddr, chunk: PageAddr, st': World, l': Ledger)
    requires Inv(st, l) && pid !in st.procs && st'.procs == st.procs[pid := Proc(dir, chunk, NoAllocs())]
    requires Built(st.table, st.mem, PRESENT + ACCESS_FROM_ALL, st'.table, st'.mem, dir, chunk)
    requires l' == SpawnLedger(l, st'.mem, dir, chunk, pid)
    ensures Next(st, l, Isolation.Op.Spawn(pid, dir, chunk), st', l') && Inv(st', l')
  {
    NextKeeps(st, l, Isolation.Op.Spawn(pid, dir, chunk), st', l');
  }

  /** Loading a program leaves the system isolated, keeps the invariant, and is a step of the run argument, exactly when
      every entry it leaves is allowed. */
  lemma LoadStepIff(st: World, l: Ledger, pid: nat, ranges: seq<Range>, st': World)
    requires Inv(st, l) && Remapped(st, pid, ranges, st')
    ensures Isolated(st', l) <==> Harmless(l, pid, st.procs[pid].allocs, ranges)
    ensures Inv(st', l) <==> Harmless(l, pid, st.procs[pid].allocs, ranges)
    ensures Next(st, l, Isolation.Op.Load(pid, ranges), st', l) <==> Harmless(l, pid, st.procs[pid].allocs, ranges)
  {
    hide Harmless; hide Isolated;
    MappingKeepsIff(st, l, pid, ranges, st');
    MappingIsolatesIff(st, l, pid, ranges, st');
  }

  lemma KernelAllocStep(st: World, l: Ledger, size: Word, owner: Owner, st': World, l': Ledger)
    requires Inv(st, l) && KernelAllocNext(st, l, size, owner, st', l')
    ensures Next(st, l, Isolation.Op.KernelAlloc(size, owner), st', l') && Inv(st', l')
  {
    NextKeeps(st, l, Isolation.Op.KernelAlloc(size, owner), st', l');
  }

  lemma StoreStep(st: World, l: Ledger, st': World)
    requires Inv(st, l) && StoreNext(st, l, st', l)
    ensures Next(st, l, Isolation.Op.Store, st', l) && Inv(st', l)
  {
    NextKeeps(st, l, Isolation.Op.Store, st', l);
  }

  /** The bytes [d, d + n] belong to no paging structure. */
  ghost predicate ClearOfStructures(st: World, d: nat, n: nat) {
    forall q, x: Word :: q in st.procs && d <= x <= d + n ==>
      !PtPage(st.mem, st.procs[q].dir, st.procs[q].chunk, Mask(x))
  }

  /** What copy_string_from_task leaves behind is a store outside the paging structures: its scratch page was free. */
  lemma CopyIsStore(st: World, l: Ledger, pid: nat, src: Word, max: nat, phys: Word, tmp: PageAddr, st': World)
    requires pid in st.procs && max >= 1 && IsBlock(tmp) && |st.table| == HEAP_BLOCKS && st.table[BlockOf(tmp)] == FREE
    requires StringDelivered(st.mem, st.procs[pid].dir, src, max, phys, tmp, st'.mem)
    requires ClearOfStructures(st, phys, CutLen(st.mem, TaskSpace(st.procs[pid].dir), src, 0, max - 1))
    requires st'.table == st.table && st'.procs == st.procs
    requires Inv(st, l)
    ensures StoreNext(st, l, st', l)
  {
    hide Inv; hide SrcByte; hide CutLen;
    forall q | q in st.procs ensures PtSame(st, st'.mem, q) {
      forall a: PageAddr | PtPage(st.mem, st.procs[q].dir, st.procs[q].chunk, a) ensures SamePage(st.mem, st'.mem, a) {
        PtBlockOwned(st, l, q, a);
        forall x | a <= x < a + 4096 ensures st.mem[x] == st'.mem[x] {
          PageOf(x, a);
        }
      }
    }
  }

  /** The head of a run of free blocks is the head of no live allocation. */
  lemma FreshHead(st: World, l: Ledger, s: nat, n: nat)
    requires Inv(st, l) && FreeRun(st.table, s, n) && n >= 1
    ensures s !in l.live && s < HEAP_BLOCKS
    ensures HeapPointer(BlockAddr(s)) && HeadOf(BlockAddr(s)) == s
  {
    if s in l.live {
      assert Covers(l.live, s, s);
      assert false;
    }
  }

  /** Bytes written into the image of a process are written into no paging structure. */
  lemma ReadIsStore(st: World, l: Ledger, pid: nat, ptr: PageAddr, size: Word, st': World)
    requires HeapPointer(ptr) && IsSize(size) && ptr + size <= WORD_LIMIT
    requires Owns(l, HeadOf(ptr), Image(pid)) && l.live[HeadOf(ptr)] == Blocks(size)
    requires st'.table == st.table && st'.procs == st.procs
    requires forall x :: 0 <= x < WORD_LIMIT && !(ptr <= x < ptr + size) ==> st'.mem[x] == st.mem[x]
    requires Inv(st, l)
    ensures StoreNext(st, l, st', l)
  {
    hide Inv; hide AlignUpper; hide Blocks; hide PtPage; hide HeadOf; hide HeapPointer;
    var h := HeadOf(ptr);
    LiveInPool(st, l, ptr, size);
    var last := ptr + Blocks(size) * PAGE;
    assert ptr + size <= last by { CoversSize(size); }
    forall q | q in st.procs ensures PtSame(st, st'.mem, q) {
      forall a: PageAddr | PtPage(st.mem, st.procs[q].dir, st.procs[q].chunk, a) ensures SamePage(st.mem, st'.mem, a) {
        NotInImage(st, l, pid, h, q, a);
        assert !(ptr <= a < last);
        if a < ptr { WholePageBelow(a, ptr); }
      }
    }
  }

  lemma WholePageBelow(a: PageAddr, b: PageAddr)
    requires a < b
    ensures a + PAGE <= b
  {
    PageMultiple(a);
    PageMultiple(b);
  }

  /** No page of a paging structure lies in the image of a process. */
  lemma NotInImage(st: World, l: Ledger, pid: nat, h: nat, q: nat, a: PageAddr)
    requires Owns(l, h, Image(pid)) && q in st.procs && PtPage(st.mem, st.procs[q].dir, st.procs[q].chunk, a)
    requires Inv(st, l)
    ensures !(HEAP_BASE + h * PAGE <= a < HEAP_BASE + (h + l.live[h]) * PAGE)
  {
    PtBlockOwned(st, l, q, a);
    var b := BlockOf(a);
    if HEAP_BASE + h * PAGE <= a < HEAP_BASE + (h + l.live[h]) * PAGE {
      assert Covers(l.live, h, b) && Covers(l.live, b, b);
      LiveDisjoint(st.table, l.live, h, b, b);
      assert false;
    }
  }

  /** Mapping for a process leaves the bytes of its image alone. */
  lemma ImageStays(st: World, l: Ledger, pid: nat, ptr: Word, size: Word, m': Mem)
    requires HeapPointer(ptr) && ptr % PAGE == 0 && IsSize(size) && pid in st.procs
    requires Owns(l, HeadOf(ptr), Image(pid)) && l.live[HeadOf(ptr)] == Blocks(size)
    requires OnlyTables(st.mem, m', st.procs[pid].dir)
    requires Inv(st, l)
    ensures ptr + size <= WORD_LIMIT && forall x :: ptr <= x < ptr + size ==> m'[x] == st.mem[x]
  {
    hide Inv; hide AlignUpper; hide Blocks; hide HeadOf; hide HeapPointer; hide OwnsPage;
    var h := HeadOf(ptr);
    LiveInPool(st, l, ptr, size);
    CoversSize(size);
    forall x | ptr <= x < ptr + size ensures m'[x] == st.mem[x] {
      var a := Mask(x);
      AlignedBelow(ptr, x);
      if OwnsPage(st.mem, st.procs[pid].dir, a) {
        assert PtPage(st.mem, st.procs[pid].dir, st.procs[pid].chunk, a);
        NotInImage(st, l, pid, h, pid, a);
        assert false;
      }
      assert SamePage(st.mem, m', a);
    }
  }

  lemma AlignedBelow(ptr: Word, x: Word)
    requires ptr % PAGE == 0 && ptr <= x
    ensures ptr <= Mask(x) <= x < Mask(x) + PAGE
  {
  }

  /** What mapping an ELF file that was read into its image leaves: the file and the stack in place, and every segment
      of a file with clean headers. */
  lemma ElfLoaded(st: World, l: Ledger, pid: nat, ptr: PageAddr, file: seq<Byte>, stack: PageAddr, st': World)
    requires pid in st.procs && HeapPointer(ptr) && IsSize(|file|) && IsElf(file) && FileAt(st.mem, ptr, file)
    requires Owns(l, HeadOf(ptr), Image(pid)) && l.live[HeadOf(ptr)] == Blocks(|file|)
    requires stack + STACK_SIZE < WORD_LIMIT
    requires FileType.Elf(ptr).Readable(st.mem, st.procs[pid].dir) && FileType.Elf(ptr).Accepted(st.mem)
    requires Remapped(st, pid, LoadRanges(st.mem, st.procs[pid].dir, FileType.Elf(ptr), stack), st')
    requires HeadersInside(FileHeaders(file), Blocks(|file|))
    requires Inv(st, l)
    ensures FileAt(st'.mem, ptr, file) && MapsOpen(Flat(st'.mem, st.procs[pid].dir), 0x3FB000, stack, 0x4000)
    ensures HeadersClean(FileHeaders(file)) ==> SegmentsLoaded(Flat(st'.mem, st.procs[pid].dir), st'.mem, ptr, file)
  {
    hide Inv; hide Flat; hide MapsOpen; hide LoadRanges; hide HeadersInside; hide HeadersClean; hide HeadersApart;
    hide ApplyAll; hide Blocks; hide IsElf; hide SegLoaded; hide SegReads; hide FileType.Accepted; hide HeapPointer;
    hide SameTables; hide OnlyTables; hide WellFormed; hide Headers; hide FileHeaders;
    var dir, hs := st.procs[pid].dir, FileHeaders(file);
    ImageStays(st, l, pid, ptr, |file|, st'.mem);
    HeadersOfFile(st.mem, ptr, file);
    StackLast(Flat(st.mem, dir), st.mem, dir, ptr, stack);
    if HeadersClean(hs) {
      LiveInPool(st, l, ptr, |file|);
      CleanIsWellFormed(ptr, hs, Blocks(|file|));
      ProgramLoaded(Flat(st.mem, dir), st.mem, dir, ptr, stack);
      forall j | 0 <= j < |hs| ensures SegReads(Flat(st'.mem, dir), st'.mem, hs[j], file) {
        LoadedReads(Flat(st'.mem, dir), st'.mem, ptr, hs[j], file);
      }
    }
  }

  /** Every segment of the file is in place, with its permissions, and reads as the file says. */
  ghost predicate SegmentsLoaded(f: FlatMap, m: Mem, ptr: PageAddr, file: seq<Byte>)
    requires IsElf(file)
  {
    forall j :: 0 <= j < |FileHeaders(file)| ==>
      SegLoaded(f, ptr, FileHeaders(file)[j]) && SegReads(f, m, FileHeaders(file)[j], file)
  }

  /** What mapping a flat binary leaves. */
  lemma FlatLoaded(st: World, l: Ledger, pid: nat, ptr: PageAddr, size: Word, stack: PageAddr, st': World)
    requires pid in st.procs && HeapPointer(ptr) && IsSize(size) && PROGRAM_ADDRESS + size <= HEAP_BASE
    requires Owns(l, HeadOf(ptr), Image(pid)) && l.live[HeadOf(ptr)] == Blocks(size)
    requires stack + STACK_SIZE < WORD_LIMIT && FileType.Binary(ptr, size).Readable(st.mem, st.procs[pid].dir)
    requires Remapped(st, pid, LoadRanges(st.mem, st.procs[pid].dir, FileType.Binary(ptr, size), stack), st')
    requires Inv(st, l)
    ensures MapsOpen(Flat(st'.mem, st.procs[pid].dir), 0x400000, ptr, size)
    ensures MapsOpen(Flat(st'.mem, st.procs[pid].dir), 0x3FB000, stack, 0x4000)
    ensures ptr + size <= WORD_LIMIT && forall x :: ptr <= x < ptr + size ==> st'.mem[x] == st.mem[x]
  {
    hide Inv; hide Flat; hide MapsOpen; hide LoadRanges; hide ApplyAll; hide Blocks; hide HeapPointer;
    hide SameTables; hide OnlyTables;
    ImageStays(st, l, pid, ptr, size, st'.mem);
    BinaryLoaded(Flat(st.mem, st.procs[pid].dir), st.mem, st.procs[pid].dir, ptr, size, stack);
  }

  lemma StoredIs(m: Mem, addr: Word, val: Byte)
    ensures Stored(m, addr, val) == m[addr := val]
  {
  }

  lemma ScratchFree(t: seq<Entry>)
    requires |t| == HEAP_BLOCKS && HasFit(t, 1)
    ensures t[BlockOf(Scratch(t))] == FREE
  {
    assert FreeRun(t, FirstFit(t, 1), 1);
  }

  class System {
    const k: Machine
    /** The processes array. */
    var procs: map<nat, Process>
    ghost var ledger: Ledger

    /** After kheap_init and before the first process. */
    constructor (k: Machine)
      requires k.Valid() && k.Table() == AllFree(HEAP_BLOCKS)
      ensures Valid() && this.k == k && procs == map[] && Boot(Shown(), ledger)
    {
      this.k, procs := k, map[];
      ledger := Ledger(map[], map[]);
      new;
      FreshHolds(HEAP_BLOCKS);
    }

    ghost function Footprint(): set<object>
      reads this
    {
      set pid | pid in procs :: procs[pid].allocations
    }

    /** The processes as values. */
    ghost function Values(): map<nat, Proc>
      reads this, Footprint()
    {
      map pid | pid in procs :: Proc(procs[pid].dir, procs[pid].chunk, procs[pid].allocations[..])
    }

    /** The state of the isolation argument that the machine is in. */
    ghost function Shown(): World
      requires k.Valid()
      reads this, k, k.heap.entries, Footprint()
    {
      World(k.Table(), k.mem, Values())
    }

    ghost predicate Separate()
      reads this
    {
      && (forall p :: p in procs ==> procs[p].Valid() && procs[p].allocations as object != k.heap.entries)
      && (forall p, q :: p in procs && q in procs && p != q ==> procs[p].allocations != procs[q].allocations)
    }

    ghost predicate Valid()
      reads this, k, k.heap.entries, Footprint()
    {
      k.Valid() && Separate() && Inv(Shown(), ledger)
    }

    /** The value view after the allocation table of pid may have changed. */
    ghost predicate OnlyChanged(st: World, pid: nat)
      requires k.Valid() && pid in procs && pid in st.procs
      reads this, k, k.heap.entries, Footprint()
    {
      && st.procs[pid].dir == procs[pid].dir && st.procs[pid].chunk == procs[pid].chunk
      && Values() == st.procs[pid := Proc(procs[pid].dir, procs[pid].chunk, procs[pid].allocations[..])]
    }

    /** The callers' record after a step. */
    ghost method Record(l': Ledger)
      requires k.Valid() && Separate() && Inv(Shown(), l')
      modifies this`ledger
      ensures Valid() && Shown() == old(Shown()) && ledger == l'
    {
      hide Inv;
      ghost var was := Values();
      ledger := l';
      assert Values() == was;
    }

    /** process_malloc by process pid. */
    method Malloc(pid: nat, size: Word) returns (ptr: Word)
      requires Valid() && pid in procs && Safe(k.Table(), size)
      modifies this`ledger, k`mem, k.heap.entries, procs[pid].allocations
      ensures Valid() && Next(old(Shown()), old(ledger), Isolation.Op.Malloc(pid, size, ptr), Shown(), ledger)
      ensures ptr != 0 ==> MapsOpen(Flat(k.mem, procs[pid].dir), ptr, ptr, size)
      ensures ptr != 0 ==> forall v: Word :: ptr <= v < ptr + size ==> k.mem[v] == 0
      ensures ptr != 0 ==> forall v: Word :: ptr + size <= v < ptr + Blocks(size) * 4096 ==> k.mem[v] == old(k.mem)[v]
    {
      hide Inv; hide MallocPost; hide Resident; hide Safe; hide FirstFit; hide Next; hide MallocNext; hide MallocLedger;
      hide Flat; hide Translate; hide Open;
      ghost var st, l := Shown(), ledger;
      CallsAreReady(st, l, pid);
      ptr := procs[pid].Malloc(k, size);
      assert OnlyChanged(st, pid);
      ghost var st' := Shown();
      MallocStep(st, l, pid, size, ptr, st', MallocLedger(st, l, pid, size));
      if ptr != 0 {
        MallocGrants(st.table, st.mem, procs[pid].dir, st.procs[pid].allocs, size, st'.table, st'.mem,
                     st'.procs[pid].allocs, ptr);
      }
      Record(MallocLedger(st, l, pid, size));
    }

    /** process_free by process pid. */
    method Free(pid: nat, ptr: Word)
      requires Valid() && pid in procs && ptr != 0
      modifies this`ledger, k`mem, k.heap.entries, procs[pid].allocations
      ensures Valid() && Next(old(Shown()), old(ledger), Isolation.Op.Free(pid, ptr), Shown(), ledger)
    {
      hide Inv; hide Resident; hide FreePost; hide Next; hide FreeNext; hide FreeLedger;
      ghost var st, l := Shown(), ledger;
      CallsAreReady(st, l, pid);
      procs[pid].Free(k, ptr);
      assert OnlyChanged(st, pid);
      FreeStep(st, l, pid, ptr, Shown(), FreeLedger(st, l, pid, ptr));
      Record(FreeLedger(st, l, pid, ptr));
    }

    /** kzalloc by the kernel, for itself or for the image of a process. */
    method Kzalloc(size: Word, ghost owner: Owner) returns (ptr: Word)
      requires Valid() && Safe(k.Table(), size) && (owner.KernelData? || owner.Image?)
      modifies this`ledger, k`mem, k.heap.entries
      ensures Valid() && (ptr == 0 ==> ledger == old(ledger) && k.Table() == old(k.Table()))
      ensures old(HasFit(k.Table(), Blocks(size))) ==> ptr != 0
      ensures ptr != 0 ==>
                && HeapPointer(ptr) && ptr % BLOCK_SIZE == 0 && HeadOf(ptr) !in old(ledger).live
                && HeadOf(ptr) == old(FirstFit(k.Table(), Blocks(size)))
                && FreeRun(old(k.Table()), HeadOf(ptr), Blocks(size))
                && k.Table() == Marked(old(k.Table()), HeadOf(ptr), Blocks(size))
                && ledger == Add(old(ledger), HeadOf(ptr), Blocks(size), owner)
      ensures Next(old(Shown()), old(ledger), Isolation.Op.KernelAlloc(size, owner), Shown(), ledger)
    {
      hide Inv; hide FirstFit; hide Next; hide KernelAllocated;
      ghost var st, l := Shown(), ledger;
      ptr := k.Kzalloc(size);
      ghost var s := FirstFit(st.table, Blocks(size));
      ghost var l' := if s < 0 then l else Add(l, s, Blocks(size), owner);
      if s >= 0 { FreshHead(st, l, s, Blocks(size)); }
      assert Values() == st.procs;
      KernelAllocStep(st, l, size, owner, Shown(), l');
      Record(l');
    }

    /** kfree by the kernel of a block of its own. */
    method Kfree(ptr: Word)
      requires Valid() && HeapPointer(ptr) && HeadOf(ptr) in ledger.owner && ledger.owner[HeadOf(ptr)].KernelData?
      modifies this`ledger, k.heap.entries
      ensures Valid() && Next(old(Shown()), old(ledger), Isolation.Op.KernelFree(HeadOf(ptr)), Shown(), ledger)
      ensures ledger == Remove(old(ledger), {HeadOf(ptr)}) && k.Table() == Freed(old(k.Table()), HeadOf(ptr))
    {
      hide Inv; hide Next;
      ghost var st, l := Shown(), ledger;
      k.Kfree(ptr);
      assert Values() == st.procs;
      KernelFreeStep(st, l, HeadOf(ptr), Shown(), Remove(l, {HeadOf(ptr)}));
      Record(Remove(l, {HeadOf(ptr)}));
    }

    /** process_map_memory for process pid: the system stays isolated, and loading is a step of the run argument,
        exactly when every entry that it leaves is allowed. */
    method LoadProgram(pid: nat, file: FileType, stack: PageAddr) returns (res: int)
      requires Valid() && pid in procs && stack + STACK_SIZE < WORD_LIMIT && file.Readable(k.mem, procs[pid].dir)
      modifies k`mem
      ensures res == if file.Accepted(old(k.mem)) then 0 else -EINVARG
      ensures k.Valid() && ledger == old(ledger) && Separate()
      ensures var ranges := LoadRanges(old(k.mem), procs[pid].dir, file, stack);
              && Remapped(old(Shown()), pid, ranges, Shown())
              && (Isolated(Shown(), ledger) <==> Harmless(ledger, pid, procs[pid].allocations[..], ranges))
              && (Valid() <==> Harmless(ledger, pid, procs[pid].allocations[..], ranges))
              && (Next(old(Shown()), ledger, Isolation.Op.Load(pid, ranges), Shown(), ledger) <==>
                  Harmless(ledger, pid, procs[pid].allocations[..], ranges))
    {
      hide Inv; hide Next; hide Mapped; hide Flat; hide SameTables; hide OnlyTables; hide TableAddr; hide OwnsPage;
      hide Harmless; hide LoadRanges; hide ApplyAll; hide Isolated;
      ghost var st, l := Shown(), ledger;
      CallsAreReady(st, l, pid);
      res := MapMemory(k, procs[pid].dir, file, stack);
      assert Values() == st.procs;
      LoadStepIff(st, l, pid, LoadRanges(st.mem, procs[pid].dir, file, stack), Shown());
    }

    /** copy_string_from_task for process pid, into a buffer of the kernel: at most a store of the run argument. */
    method CopyStringFrom(pid: nat, virtual: Word, phys: Word, max: nat) returns (res: int)
      requires Valid() && pid in procs && max >= 1
      requires max < PAGE && HasFit(k.Table(), 1) ==>
                 && CallClear(k.mem, procs[pid].dir, virtual, phys, max, Scratch(k.Table()))
                 && ClearOfStructures(Shown(), phys, CutLen(k.mem, TaskSpace(procs[pid].dir), virtual, 0, max - 1))
      modifies k`mem, k.heap.entries
      ensures Valid() && ledger == old(ledger)
      ensures res == if max >= PAGE then -EINVARG else if !HasFit(old(k.Table()), 1) then -ENOMEM else 0
      ensures res != 0 ==> Shown() == old(Shown())
      ensures res == 0 ==>
                && StringDelivered(old(k.mem), procs[pid].dir, virtual, max, phys, Scratch(old(k.Table())), k.mem)
                && (exists n: nat :: TextAt(old(k.mem), procs[pid].dir, virtual, max, k.mem, phys, n))
                && Next(old(Shown()), ledger, Isolation.Op.Store, Shown(), ledger)
    {
      hide TextAt;
      hide Inv; hide Next; hide Flat; hide StoreNext; hide StringDelivered; hide CallClear; hide ClearOfStructures;
      hide Resident; hide CutLen; hide SameTables; hide FirstFit; hide HasFit; hide Scratch;
      ghost var st, l := Shown(), ledger;
      CallsAreReady(st, l, pid);
      res := CopyStringFromTask(k, procs[pid].dir, procs[pid].chunk, virtual, phys, max);
      assert Values() == st.procs;
      if res == 0 {
        ScratchFree(st.table);
        CopyIsStore(st, l, pid, virtual, max, phys, Scratch(st.table), Shown());
        StoreStep(st, l, Shown());
      }
    }

    /** A store by the program of process pid where its directory lets it write. */
    method Store(pid: nat, v: Word, val: Byte)
      requires Valid() && CanWrite(Shown(), pid, v)
      modifies k`mem
      ensures Valid() && ledger == old(ledger)
      ensures k.mem == old(k.mem)[old(Translate(Flat(k.mem, procs[pid].dir), v)) := val]
      ensures Next(old(Shown()), ledger, Isolation.Op.Store, Shown(), ledger)
    {
      hide Inv; hide Next; hide Flat; hide Translate; hide StoreNext; hide Stored;
      ghost var st, l := Shown(), ledger;
      var addr := k.PagingGetPhysicalAddress(procs[pid].dir, v);
      k.mem := Stored(k.mem, addr, val);
      assert Values() == st.procs;
      assert Shown() == World(st.table, Stored(st.mem, addr, val), st.procs);
      StoredIs(st.mem, addr, val);
      UserStoreIsLegal(st, l, pid, v, addr, val, Shown());
      StoreStep(st, l, Shown());
    }

    /** task_init: a page directory, present and user-accessible but not writeable, for a new process. */
    method NewProcess() returns (p: Process)
      requires k.Valid() && |FreeBlocks(k.Table())| >= 1026
      modifies k`mem, k.heap.entries
      ensures k.Valid() && fresh(p) && fresh(p.allocations) && p.Valid() && p.allocations[..] == NoAllocs()
      ensures Built(old(k.Table()), old(k.mem), PRESENT + ACCESS_FROM_ALL, k.Table(), k.mem, p.dir, p.chunk)
    {
      hide Built;
      ghost var t, m := k.Table(), k.mem;
      var chunk, dir := k.PagingNew4gb(PRESENT + ACCESS_FROM_ALL);
      BuiltDirectory(t, m, PRESENT + ACCESS_FROM_ALL, k.Table(), k.mem, dir, chunk);
      var directory := k.DirectoryOf(chunk);
      p := new Process(directory, chunk);
    }

    /** processes[slot] = process. */
    method Register(pid: nat, p: Process)
      requires Separate() && pid !in procs && p.Valid()
      requires p.allocations !in Footprint() && p.allocations as object != k.heap.entries
      modifies this`procs
      ensures Separate() && procs == old(procs)[pid := p]
      ensures Values() == old(Values())[pid := Proc(p.dir, p.chunk, p.allocations[..])]
    {
      procs := procs[pid := p];
    }

    /** processes[pid] = 0. */
    method Unlink(pid: nat, ghost st': World, ghost l': Ledger)
      requires k.Valid() && Separate() && pid in procs
      requires Inv(st', l') && st' == World(k.Table(), k.mem, Values() - {pid})
      modifies this
      ensures Valid() && procs == old(procs) - {pid} && Shown() == st' && ledger == l'
    {
      hide Inv;
      ledger := l';
      procs := procs - {pid};
      assert Values() == st'.procs;
    }

    /** The creation of a process. */
    method Spawn(pid: nat)
      requires Valid() && pid !in procs && |FreeBlocks(k.Table())| >= 1026
      modifies this, k`mem, k.heap.entries
      ensures Valid() && procs.Keys == old(procs.Keys) + {pid} && procs == old(procs)[pid := procs[pid]]
      ensures fresh(procs[pid]) && fresh(procs[pid].allocations) && procs[pid].allocations[..] == NoAllocs()
      ensures Next(old(Shown()), old(ledger), Isolation.Op.Spawn(pid, procs[pid].dir, procs[pid].chunk), Shown(),
                ledger)
    {
      hide Inv; hide Built; hide SpawnLedger; hide Next; hide SpawnNext; hide FreeBlocks; hide NoAllocs;
      ghost var st, l := Shown(), ledger;
      var p := NewProcess();
      assert Values() == st.procs;
      Register(pid, p);
      ghost var l' := SpawnLedger(l, k.mem, p.dir, p.chunk, pid);
      SpawnStep(st, l, pid, p.dir, p.chunk, Shown(), l');
      Record(l');
    }

    /** process_terminate up to process_unlink: the other processes are as they were. */
    method TerminateMemory(pid: nat, own: Belongings)
      returns (ghost ops: seq<Isolation.Op>, ghost st': World, ghost l': Ledger)
      requires Valid() && pid in procs && Recorded(ledger, pid, own) && own.InHeap()
      modifies k`mem, k.heap.entries, procs[pid].allocations
      ensures k.Valid() && Inv(st', l') && st' == World(k.Table(), k.mem, Values() - {pid})
      ensures Values() - {pid} == old(Values()) - {pid}
      ensures Leads(Moment(old(Shown()), old(ledger)), ops, Moment(st', l'))
      ensures l' == Without(old(ledger), old(Values())[pid], own, k.mem)
      ensures KeepsRest(old(ledger), l', pid, ToSet(Before(own.program, own.stack)) + {HeadOf(own.task)})
      ensures Tidy(old(Shown()), old(ledger), pid, ToSet(Before(own.program, own.stack))) ==> Gone(l', pid)
    {
      hide Inv; hide Next; hide Leads; hide Without; hide ProcOk; hide Disposables; hide Before; hide Recorded;
      hide PtBlocks; hide KeepsRest; hide Tidy; hide Gone; hide ToSet;
      ghost var st, l := Shown(), ledger;
      ops, st', l' := Terminate(k, procs[pid], own, st, l, pid);
      assert OnlyChanged(st, pid);
    }

    /** The memory side of process_terminate: steps of the run argument after which the process is gone, with its live
        allocations, its program, its stack and its paging structure; the other processes and their allocations are as
        they were. */
    method Exit(pid: nat, own: Belongings) returns (ghost ops: seq<Isolation.Op>)
      requires Valid() && pid in procs && Recorded(ledger, pid, own)
      modifies this, k`mem, k.heap.entries, procs[pid].allocations
      ensures Valid() && procs == old(procs) - {pid} && Values() == old(Values()) - {pid}
      ensures Leads(Moment(old(Shown()), old(ledger)), ops, Moment(Shown(), ledger))
      ensures ledger == Without(old(ledger), old(Values())[pid], own, k.mem)
      ensures KeepsRest(old(ledger), ledger, pid, ToSet(Before(own.program, own.stack)) + {HeadOf(own.task)})
      ensures Tidy(old(Shown()), old(ledger), pid, ToSet(Before(own.program, own.stack))) ==> Gone(ledger, pid)
    {
      hide Inv; hide Next; hide Leads; hide Without; hide ProcOk; hide Disposables; hide Before; hide PtBlocks;
      hide KeepsRest; hide Tidy; hide Gone; hide ToSet;
      ghost var st', l';
      ops, st', l' := TerminateMemory(pid, own);
      Unlink(pid, st', l');
    }

    // ----- The life of a process -----

    /** The record is l0 with kept and mine, and n more blocks are free in one run. */
    ghost predicate Ready(l0: Ledger, kept: Live, mine: Ledger, n: nat)
      reads this, k, k.heap.entries, Footprint()
    {
      Valid() && Tracks(l0, ledger, kept, mine) && HasFit(k.Table(), n)
    }

    /** kzalloc where there is room for the request and for more, of a block that is recorded in kept. */
    method TakeKept(size: Word, ghost rest: nat, ghost l0: Ledger, ghost kept: Live, ghost mine: Ledger)
      returns (ptr: Word, ghost kept': Live)
      requires IsSize(size) && Ready(l0, kept, mine, Blocks(size) + rest)
      modifies this`ledger, k`mem, k.heap.entries
      ensures HeapPointer(ptr) && HeadOf(ptr) !in kept && kept' == kept[HeadOf(ptr) := Blocks(size)]
      ensures Ready(l0, kept', mine, rest)
    {
      hide Inv; hide FirstFit; hide HasFit; hide Next; hide Tracks;
      RoomLeft(k.Table(), Blocks(size), rest);
      ghost var l := ledger;
      ptr := Kzalloc(size, KernelData);
      TracksKept(l0, l, kept, mine, HeadOf(ptr), Blocks(size));
      kept' := kept[HeadOf(ptr) := Blocks(size)];
    }

    /** The same, of a block that is recorded in mine. */
    method TakeMine(size: Word, ghost owner: Owner, ghost rest: nat, ghost l0: Ledger, ghost kept: Live,
                    ghost mine: Ledger)
      returns (ptr: Word, ghost mine': Ledger)
      requires IsSize(size) && Ready(l0, kept, mine, Blocks(size) + rest) && (owner.KernelData? || owner.Image?)
      modifies this`ledger, k`mem, k.heap.entries
      ensures HeapPointer(ptr) && ptr % BLOCK_SIZE == 0 && HeadOf(ptr) !in kept && HeadOf(ptr) !in mine.live
      ensures mine' == Add(mine, HeadOf(ptr), Blocks(size), owner) && Ready(l0, kept, mine', rest)
    {
      hide Inv; hide FirstFit; hide HasFit; hide Next; hide Tracks;
      RoomLeft(k.Table(), Blocks(size), rest);
      ghost var l := ledger;
      ptr := Kzalloc(size, owner);
      TracksMine(l0, l, kept, mine, HeadOf(ptr), Blocks(size), owner);
      mine' := Add(mine, HeadOf(ptr), Blocks(size), owner);
    }

    /** kfree of a block that is recorded in kept. */
    method Give(ptr: Word, ghost rest: nat, ghost l0: Ledger, ghost kept: Live, ghost mine: Ledger)
      returns (ghost kept': Live)
      requires HeapPointer(ptr) && HeadOf(ptr) in kept && Ready(l0, kept, mine, rest)
      modifies this`ledger, k.heap.entries
      ensures kept' == kept - {HeadOf(ptr)} && Ready(l0, kept', mine, rest)
    {
      hide Inv; hide HasFit; hide Next; hide Tracks;
      FreedRoom(k.Table(), HeadOf(ptr), rest);
      TracksFree(l0, ledger, kept, mine, HeadOf(ptr));
      Kfree(ptr);
      kept' := kept - {HeadOf(ptr)};
    }

    /** The path list that fopen makes of a path of the given number of parts, and does not give back: its root, a
        buffer and a node for each part; the buffer of the empty part at the end is freed at once. */
    method TakePath(parts: nat, ghost rest: nat, ghost l0: Ledger, ghost kept: Live, ghost mine: Ledger)
      returns (ghost kept': Live, ghost paths: set<nat>)
      requires Ready(l0, kept, mine, 2 * parts + 2 + rest)
      modifies this`ledger, k`mem, k.heap.entries
      ensures Ready(l0, kept', mine, rest)
      ensures kept' == WithSingles(kept, paths) && paths !! kept.Keys && |paths| == 2 * parts + 1
    {
      hide Ready; hide WithSingles; hide HeadOf;
      var root, buffer, node;
      SmallBlocks();
      SinglesNone(kept);
      root, kept' := TakeKept(PATH_ROOT_SIZE, 2 * parts + 1 + rest, l0, kept, mine);
      OneBlockMore(kept, {}, HeadOf(root), kept');
      paths := {} + {HeadOf(root)};
      for i := 0 to parts
        invariant Ready(l0, kept', mine, 2 * (parts - i) + 1 + rest)
        invariant kept' == WithSingles(kept, paths) && paths !! kept.Keys && |paths| == 2 * i + 1
      {
        buffer, kept' := TakeKept(MAX_PATH, 2 * (parts - i) + rest, l0, kept', mine);
        OneBlockMore(kept, paths, HeadOf(buffer), kept');
        paths := paths + {HeadOf(buffer)};
        node, kept' := TakeKept(PATH_PART_SIZE, 2 * (parts - i) - 1 + rest, l0, kept', mine);
        OneBlockMore(kept, paths, HeadOf(node), kept');
        paths := paths + {HeadOf(node)};
      }
      ghost var done := kept';
      buffer, kept' := TakeKept(MAX_PATH, rest, l0, kept', mine);
      kept' := Give(buffer, rest, l0, kept', mine);
      assert kept' == done;
    }

    /** What the file system takes for an open file: the descriptor, the item with its copy of the directory entry, and
        the entry of the file table. */
    method TakeDescriptor(ghost rest: nat, ghost l0: Ledger, ghost kept: Live, ghost mine: Ledger)
      returns (fd: OpenedFile, ghost kept': Live)
      requires Ready(l0, kept, mine, rest + 4)
      modifies this`ledger, k`mem, k.heap.entries
      ensures fd.InHeap() && fd.Distinct() && fd.Heads() !! kept.Keys && kept' == WithSingles(kept, fd.Heads())
      ensures Ready(l0, kept', mine, rest)
    {
      hide Ready; hide WithSingles; hide HeadOf; hide Blocks;
      SmallBlocks();
      var descriptor, item, copy, file;
      descriptor, kept' := TakeKept(FAT_DESCRIPTOR_SIZE, rest + 3, l0, kept, mine);
      item, kept' := TakeKept(FAT_ITEM_SIZE, rest + 2, l0, kept', mine);
      copy, kept' := TakeKept(DIRECTORY_ITEM_SIZE, rest + 1, l0, kept', mine);
      file, kept' := TakeKept(FILE_DESCRIPTOR_SIZE, rest, l0, kept', mine);
      FourTaken(kept, HeadOf(descriptor), HeadOf(item), HeadOf(copy), HeadOf(file));
      fd := OpenedFile(descriptor, item, copy, file);
    }

    /** fopen, where there is room, of a file that there is: the path list, and what fclose gives back. */
    method OpenFile(parts: nat, ghost rest: nat, ghost l0: Ledger, ghost kept: Live, ghost mine: Ledger)
      returns (fd: OpenedFile, ghost kept': Live, ghost paths: set<nat>)
      requires Ready(l0, kept, mine, 2 * parts + 6 + rest)
      modifies this`ledger, k`mem, k.heap.entries
      ensures fd.InHeap() && fd.Distinct() && kept' == WithSingles(WithSingles(kept, paths), fd.Heads())
      ensures paths !! kept.Keys && fd.Heads() !! kept.Keys && fd.Heads() !! paths && |paths| == 2 * parts + 1
      ensures Ready(l0, kept', mine, rest)
    {
      hide Ready; hide WithSingles; hide OpenedFile.Heads; hide OpenedFile.Distinct; hide OpenedFile.InHeap;
      kept', paths := TakePath(parts, rest + 4, l0, kept, mine);
      SinglesKeys(kept, paths);
      fd, kept' := TakeDescriptor(rest, l0, kept', mine);
    }

    /** fclose. */
    method CloseFile(fd: OpenedFile, ghost rest: nat, ghost l0: Ledger, ghost kept: Live, ghost mine: Ledger)
      returns (ghost kept': Live)
      requires fd.InHeap() && fd.Distinct() && fd.Heads() <= kept.Keys && Ready(l0, kept, mine, rest)
      modifies this`ledger, k.heap.entries
      ensures kept' == kept - fd.Heads() && Ready(l0, kept', mine, rest)
    {
      hide Ready; hide HeadOf;
      kept' := Give(fd.copy, rest, l0, kept, mine);
      kept' := Give(fd.item, rest, l0, kept', mine);
      kept' := Give(fd.descriptor, rest, l0, kept', mine);
      kept' := Give(fd.file, rest, l0, kept', mine);
      assert kept' == kept - fd.Heads();
    }

    /** The copy of a file that elf_load makes, and keeps when it then refuses the file. */
    method LoadRefused(parts: nat, image: Word, ghost rest: nat, ghost l0: Ledger, ghost kept: Live, ghost mine: Ledger)
      returns (ptr: Word, ghost kept': Live, ghost paths: set<nat>)
      requires IsSize(image) && Ready(l0, kept, mine, 2 * parts + 6 + (Blocks(image) + rest))
      modifies this`ledger, k`mem, k.heap.entries
      ensures HeapPointer(ptr) && kept' == WithSingles(kept, paths)[HeadOf(ptr) := Blocks(image)]
      ensures paths !! kept.Keys && HeadOf(ptr) !in paths && HeadOf(ptr) !in kept && |paths| == 2 * parts + 1
      ensures Ready(l0, kept', mine, rest)
    {
      hide Ready; hide WithSingles; hide HeadOf; hide OpenedFile.Heads; hide OpenedFile.Distinct;
      hide OpenedFile.InHeap;
      var fd;
      fd, kept', paths := OpenFile(parts, Blocks(image) + rest, l0, kept, mine);
      ghost var open := fd.Heads();
      ptr, kept' := TakeKept(image, rest, l0, kept', mine);
      ClosedAgain(kept, paths, open, HeadOf(ptr), Blocks(image));
      kept' := CloseFile(fd, rest, l0, kept', mine);
    }

    /** The copy of a file that the process is run from. */
    method LoadImage(parts: nat, image: Word, ghost pid: nat, ghost rest: nat, ghost l0: Ledger, ghost kept: Live,
                     ghost mine: Ledger)
      returns (ptr: Word, ghost kept': Live, ghost mine': Ledger, ghost paths: set<nat>)
      requires IsSize(image) && Ready(l0, kept, mine, 2 * parts + 6 + (Blocks(image) + rest))
      modifies this`ledger, k`mem, k.heap.entries
      ensures HeapPointer(ptr) && ptr % BLOCK_SIZE == 0 && HeadOf(ptr) !in mine.live
      ensures kept' == WithSingles(kept, paths) && paths !! kept.Keys && |paths| == 2 * parts + 1
      ensures mine' == Add(mine, HeadOf(ptr), Blocks(image), Image(pid)) && Ready(l0, kept', mine', rest)
    {
      hide Ready; hide WithSingles; hide HeadOf; hide Add;
      hide OpenedFile.Heads; hide OpenedFile.Distinct; hide OpenedFile.InHeap;
      var fd;
      fd, kept', paths := OpenFile(parts, Blocks(image) + rest, l0, kept, mine);
      ptr, mine' := TakeMine(image, Image(pid), rest, l0, kept', mine);
      JustClosed(kept, paths, fd.Heads());
      kept' := CloseFile(fd, rest, l0, kept', mine');
    }

    /** process_load_data of a flat binary: elf_load takes a record and a copy of the file before it refuses the file,
        and gives neither back; process_load_binary opens the file again. */
    method LoadFlatData(pid: nat, record: Word, image: Word, parts: nat, block: Word, process: nat,
                        ghost rest: nat, ghost l0: Ledger)
      returns (ptr: Word, ghost x: Leak, ghost mine: Ledger)
      requires IsSize(record) && IsSize(image) && HeapPointer(block)
      requires Ready(l0, map[HeadOf(block) := process], Nothing(), DataBlocks(record, image, parts) + rest)
      modifies this`ledger, k`mem, k.heap.entries
      ensures HeapPointer(ptr) && ptr % BLOCK_SIZE == 0 && x.block == HeadOf(block) && x.Counted(true, parts)
      ensures mine == Add(Nothing(), HeadOf(ptr), Blocks(image), Image(pid))
      ensures Ready(l0, x.Lengths(true, process, Blocks(record), Blocks(image)), mine, rest)
    {
      hide Ready; hide HeadOf; hide Add; hide WithSingles;
      ghost var kept, first, second := map[HeadOf(block) := process], {}, {};
      ghost var n := 2 * parts + 6 + (Blocks(image) + rest);
      var file, copy;
      file, kept := TakeKept(record, 2 * parts + 6 + (Blocks(image) + n), l0, kept, Nothing());
      copy, kept, first := LoadRefused(parts, image, n, l0, kept, Nothing());
      ptr, kept, mine, second := LoadImage(parts, image, pid, rest, l0, kept, Nothing());
      x := Leak(HeadOf(block), HeadOf(file), first, HeadOf(copy), second);
      FlatKeys(x, process, Blocks(record), Blocks(image));
    }

    /** process_load_data of an ELF file. */
    method LoadElfData(pid: nat, record: Word, image: Word, parts: nat, block: Word, process: nat,
                       ghost rest: nat, ghost l0: Ledger)
      returns (ptr: Word, file: Word, ghost x: Leak, ghost m1: Ledger, ghost mine: Ledger)
      requires IsSize(record) && IsSize(image) && HeapPointer(block)
      requires Ready(l0, map[HeadOf(block) := process], Nothing(), DataBlocks(record, image, parts) + rest)
      modifies this`ledger, k`mem, k.heap.entries
      ensures HeapPointer(ptr) && ptr % BLOCK_SIZE == 0 && HeapPointer(file)
      ensures x.block == HeadOf(block) && x.Counted(false, parts)
      ensures m1 == Add(Nothing(), HeadOf(file), Blocks(record), KernelData) && HeadOf(ptr) !in m1.live
      ensures mine == Add(m1, HeadOf(ptr), Blocks(image), Image(pid))
      ensures Ready(l0, x.Lengths(false, process, Blocks(record), Blocks(image)), mine, rest)
    {
      hide Ready; hide HeadOf; hide Add; hide WithSingles;
      ghost var kept, first := map[HeadOf(block) := process], {};
      ghost var n := 2 * parts + 6 + (Blocks(image) + rest);
      RoomForLess(l0, kept, Nothing(), Blocks(record) + n, DataBlocks(record, image, parts) + rest);
      file, m1 := TakeMine(record, KernelData, n, l0, kept, Nothing());
      ptr, kept, mine, first := LoadImage(parts, image, pid, rest, l0, kept, m1);
      x := Leak(HeadOf(block), 0, first, 0, {});
    }

    lemma RoomForLess(l0: Ledger, kept: Live, mine: Ledger, n: nat, more: nat)
      requires Ready(l0, kept, mine, more) && n <= more
      ensures Ready(l0, kept, mine, n)
    {
      hide Inv; hide Tracks;
      LessRoom(k.Table(), n, more);
    }

    /** The stack and the task. */
    method TakeStackAndTask(pid: nat, task: Word, ghost l0: Ledger, ghost kept: Live, ghost mine: Ledger)
      returns (stack: Word, t: Word, ghost m1: Ledger, ghost mine': Ledger)
      requires IsSize(task) && Ready(l0, kept, mine, Blocks(STACK_SIZE) + (Blocks(task) + 1026))
      modifies this`ledger, k`mem, k.heap.entries
      ensures HeapPointer(stack) && stack % PAGE == 0 && HeapPointer(t)
      ensures m1 == Add(mine, HeadOf(stack), Blocks(STACK_SIZE), Image(pid)) && HeadOf(stack) !in mine.live
      ensures mine' == Add(m1, HeadOf(t), Blocks(task), KernelData) && HeadOf(t) !in m1.live
      ensures Ready(l0, kept, mine', 1026)
    {
      hide Ready; hide Add; hide HeadOf; hide Blocks;
      stack, m1 := TakeMine(STACK_SIZE, Image(pid), Blocks(task) + 1026, l0, kept, mine);
      t, mine' := TakeMine(task, KernelData, 1026, l0, kept, m1);
    }

    /** The allocations that start a process, in their order: the process's own block; process_load_data, where flat
        says whether elf_load refuses the file; the stack and the task. */
    method Equip(pid: nat, flat: bool, process: Word, record: Word, image: Word, task: Word, parts: nat,
                 ghost l0: Ledger)
      returns (own: Belongings, ghost x: Leak, ghost mine: Ledger)
      requires IsSize(process) && IsSize(record) && IsSize(image) && IsSize(task)
      requires Ready(l0, map[], Nothing(), LaunchBlocks(process, record, image, task, parts))
      modifies this`ledger, k`mem, k.heap.entries
      ensures Ready(l0, x.Lengths(flat, Blocks(process), Blocks(record), Blocks(image)), mine, 1026)
      ensures Equipped(mine, pid, own) && Laid(own, flat, image, mine.live) && x.Counted(flat, parts)
    {
      hide Ready; hide Equipped; hide Add; hide HeadOf; hide Leak.Lengths; hide Leak.Counted; hide Blocks; hide Laid;
      ghost var n := Blocks(STACK_SIZE) + (Blocks(task) + 1026);
      ghost var kept, m1, m2, m3 := map[], Nothing(), Nothing(), Nothing();
      var block, file, ptr, stack, t;
      block, kept := TakeKept(process, DataBlocks(record, image, parts) + n, l0, map[], Nothing());
      assert kept == map[HeadOf(block) := Blocks(process)];
      if flat {
        ptr, x, m2 := LoadFlatData(pid, record, image, parts, block, Blocks(process), n, l0);
        stack, t, m3, mine := TakeStackAndTask(pid, task, l0, x.Lengths(true, Blocks(process), Blocks(record),
            Blocks(image)), m2);
        own := Belongings(Termination.Program.Binary(ptr), stack, t);
        LaidBinary(pid, ptr, image, stack, t, Blocks(task), m2, m3, mine);
      } else {
        ptr, file, x, m1, m2 := LoadElfData(pid, record, image, parts, block, Blocks(process), n, l0);
        stack, t, m3, mine := TakeStackAndTask(pid, task, l0, x.Lengths(false, Blocks(process), Blocks(record),
            Blocks(image)), m2);
        own := Belongings(Termination.Program.Elf(ptr, file), stack, t);
        LaidElf(pid, file, Blocks(record), ptr, image, stack, t, Blocks(task), m1, m2, m3, mine);
      }
    }

    /** process_load_for_slot up to the mapping, where there is room: afterwards everything that process_terminate needs
        is recorded, everything recorded for the process is accounted for, and apart from that and the blocks that stay
        taken the record is as it was. */
    method Launch(pid: nat, flat: bool, process: Word, record: Word, image: Word, task: Word, parts: nat)
      returns (own: Belongings, ghost x: Leak)
      requires Valid() && pid !in procs && Gone(ledger, pid)
      requires IsSize(process) && IsSize(record) && IsSize(image) && IsSize(task)
      requires HasFit(k.Table(), LaunchBlocks(process, record, image, task, parts))
      modifies this, k`mem, k.heap.entries
      ensures Valid() && procs.Keys == old(procs.Keys) + {pid} && procs == old(procs)[pid := procs[pid]]
      ensures fresh(procs[pid].allocations) && Recorded(ledger, pid, own) && x.Counted(flat, parts)
      ensures Tidy(Shown(), ledger, pid, ToSet(Before(own.program, own.stack)))
      ensures Started(old(ledger), ledger, pid, x.Lengths(flat, Blocks(process), Blocks(record), Blocks(image)),
                      ToSet(Before(own.program, own.stack)) + {HeadOf(own.task)})
      ensures Laid(own, flat, image, ledger.live)
      ensures Owns(ledger, HeadOf(own.stack), Image(pid)) && Owns(ledger, HeadOf(ImagePointer(own)), Image(pid))
    {
      hide Inv; hide HasFit; hide Tracks; hide Equipped; hide Next; hide FreeBlocks; hide Gone; hide Recorded;
      hide Tidy; hide Started; hide ToSet; hide NoAllocs; hide LaunchBlocks; hide Leak.Lengths; hide Leak.Counted;
      ghost var l0, mine := ledger, Nothing();
      NothingTracked(l0, Shown());
      own, x, mine := Equip(pid, flat, process, record, image, task, parts, l0);
      RoomFor1026(k.Table());
      ghost var st, l := Shown(), ledger;
      Spawn(pid);
      LaunchDone(l0, st, l, x.Lengths(flat, Blocks(process), Blocks(record), Blocks(image)), mine, pid, own,
                 procs[pid].dir, procs[pid].chunk, Shown(), ledger);
    }

    /** process_terminate of a process of which everything is accounted for: what is left is the record and the table
        from which it was started, and the blocks that stay taken. */
    method Finish(pid: nat, own: Belongings, ghost t0: seq<Entry>, ghost l0: Ledger, ghost kept: Live)
      requires Valid() && pid in procs && Recorded(ledger, pid, own)
      requires Tidy(Shown(), ledger, pid, ToSet(Before(own.program, own.stack)))
      requires Started(l0, ledger, pid, kept, ToSet(Before(own.program, own.stack)) + {HeadOf(own.task)})
      requires |t0| == HEAP_BLOCKS && Holds(t0, l0.live) && l0.live.Keys == l0.owner.Keys && Gone(l0, pid)
      modifies this, k`mem, k.heap.entries, procs[pid].allocations
      ensures Valid() && procs == old(procs) - {pid} && Gone(ledger, pid)
      ensures ledger == WithKept(l0, kept) && Adds(t0, kept, k.Table())
    {
      hide Inv; hide Gone; hide Recorded; hide Tidy; hide Started; hide ToSet; hide KeepsRest; hide Before;
      hide Termination.Without; hide Leads; hide Adds; hide Holds;
      ghost var l, p := ledger, Values()[pid];
      RecordedInHeap(l, pid, own);
      ghost var ops := Exit(pid, own);
      LifeOver(t0, l0, l, pid, own, kept, p, Shown(), ledger);
    }

    /** process_load_for_slot of a flat binary, where there is room: what Launch says, and the process can use its image
        and its stack. */
    method StartFlat(pid: nat, process: Word, record: Word, image: Word, task: Word, parts: nat)
      returns (own: Belongings, ghost x: Leak)
      requires Valid() && pid !in procs && Gone(ledger, pid)
      requires IsSize(process) && IsSize(record) && IsSize(image) && IsSize(task)
      requires PROGRAM_ADDRESS + image <= HEAP_BASE
      requires HasFit(k.Table(), LaunchBlocks(process, record, image, task, parts))
      modifies this, k`mem, k.heap.entries
      ensures Valid() && procs.Keys == old(procs.Keys) + {pid} && procs == old(procs)[pid := procs[pid]]
      ensures fresh(procs[pid].allocations) && Recorded(ledger, pid, own) && x.Counted(true, parts)
      ensures Tidy(Shown(), ledger, pid, ToSet(Before(own.program, own.stack)))
      ensures Started(old(ledger), ledger, pid, x.Lengths(true, Blocks(process), Blocks(record), Blocks(image)),
                      ToSet(Before(own.program, own.stack)) + {HeadOf(own.task)})
      ensures MapsOpen(Flat(k.mem, procs[pid].dir), 0x400000, ImagePointer(own), image)
      ensures MapsOpen(Flat(k.mem, procs[pid].dir), 0x3FB000, own.stack, 0x4000)
    {
      hide Inv; hide HasFit; hide Gone; hide Recorded; hide Tidy; hide Started; hide ToSet; hide Before; hide Blocks;
      hide LaunchBlocks; hide Flat; hide MapsOpen; hide Leak.Lengths; hide Leak.Counted;
      own, x := Launch(pid, true, process, record, image, task, parts);
      var res := LoadFlat(pid, own, image);
    }

    /** process_load_for_slot of an ELF file whose headers stay inside the image and off the heap's addresses: what
        Launch says, the process can use its stack, and, where the headers are clean, reads the file in its segments.
        The file is read here after the stack, the task and the directory are allocated, which leave it alone. */
    method StartElf(pid: nat, process: Word, record: Word, file: seq<Byte>, task: Word, parts: nat)
      returns (own: Belongings, ghost x: Leak)
      requires Valid() && pid !in procs && Gone(ledger, pid)
      requires IsSize(process) && IsSize(record) && IsSize(|file|) && IsSize(task) && IsElf(file)
      requires HeadersInside(FileHeaders(file), Blocks(|file|))
      requires HasFit(k.Table(), LaunchBlocks(process, record, |file|, task, parts))
      modifies this, k`mem, k.heap.entries
      ensures Valid() && procs.Keys == old(procs.Keys) + {pid} && procs == old(procs)[pid := procs[pid]]
      ensures fresh(procs[pid].allocations) && Recorded(ledger, pid, own) && x.Counted(false, parts)
      ensures Tidy(Shown(), ledger, pid, ToSet(Before(own.program, own.stack)))
      ensures Started(old(ledger), ledger, pid, x.Lengths(false, Blocks(process), Blocks(record), Blocks(|file|)),
                      ToSet(Before(own.program, own.stack)) + {HeadOf(own.task)})
      ensures FileAt(k.mem, ImagePointer(own), file) && ImagePointer(own) % PAGE == 0
      ensures MapsOpen(Flat(k.mem, procs[pid].dir), 0x3FB000, own.stack, 0x4000)
      ensures HeadersClean(FileHeaders(file)) ==>
                SegmentsLoaded(Flat(k.mem, procs[pid].dir), k.mem, ImagePointer(own), file)
    {
      hide Inv; hide HasFit; hide Gone; hide Recorded; hide Tidy; hide Started; hide ToSet; hide Before; hide Blocks;
      hide LaunchBlocks; hide Flat; hide MapsOpen; hide Leak.Lengths; hide Leak.Counted; hide HeadersInside;
      hide FileHeaders; hide IsElf; hide HeadersClean; hide SegmentsLoaded;
      own, x := Launch(pid, false, process, record, |file|, task, parts);
      var res := LoadElf(pid, own, file);
    }

    /** The whole life of a process with a flat binary: start, load, terminate. The heap is then as before but for the
        process's own block, the record and the copy of the file that elf_load made before it refused the file, and the
        path lists of the two openings. */
    method Life(pid: nat, process: Word, record: Word, image: Word, task: Word, parts: nat) returns (ghost x: Leak)
      requires Valid() && pid !in procs && Gone(ledger, pid)
      requires IsSize(process) && IsSize(record) && IsSize(image) && IsSize(task)
      requires PROGRAM_ADDRESS + image <= HEAP_BASE
      requires HasFit(k.Table(), LaunchBlocks(process, record, image, task, parts))
      modifies this, k`mem, k.heap.entries
      ensures Valid() && procs == old(procs) && x.Counted(true, parts)
      ensures var kept := x.Lengths(true, Blocks(process), Blocks(record), Blocks(image));
              ledger == WithKept(old(ledger), kept) && Adds(old(k.Table()), kept, k.Table())
      ensures |FreeBlocks(old(k.Table()))| == |FreeBlocks(k.Table())| + Blocks(process) + Blocks(record) + Blocks(image)
                                              + 2 * (2 * parts + 1)
    {
      hide Inv; hide HasFit; hide Gone; hide Recorded; hide Tidy; hide Started; hide ToSet; hide Before;
      hide LaunchBlocks; hide Adds; hide Holds; hide Flat; hide MapsOpen; hide FreeBlocks; hide Blocks;
      ghost var t0, l0 := k.Table(), ledger;
      RecordExact(Shown(), l0);
      var own;
      own, x := StartFlat(pid, process, record, image, task, parts);
      ghost var before, kept := old(procs), x.Lengths(true, Blocks(process), Blocks(record), Blocks(image));
      AddThenRemove(before, pid, procs[pid]);
      Finish(pid, own, t0, l0, kept);
      LifeCosts(t0, k.Table(), x, true, parts, Blocks(process), Blocks(record), Blocks(image));
      assert procs == before;
    }

    /** The bytes of a file put into the image of a process, as fread puts them there; no paging structure
        is touched. */
    method ReadFile(pid: nat, ptr: Word, file: seq<Byte>)
      requires IsSize(|file|) && HeapPointer(ptr) && ptr % PAGE == 0 && Valid()
      requires Owns(ledger, HeadOf(ptr), Image(pid)) && ledger.live[HeadOf(ptr)] == Blocks(|file|)
      modifies k`mem
      ensures Valid() && ledger == old(ledger) && FileAt(k.mem, ptr, file)
      ensures Next(old(Shown()), ledger, Isolation.Op.Store, Shown(), ledger)
    {
      hide Inv; hide Next; hide Blocks; hide PtSame;
      ghost var st, l, m := Shown(), ledger, k.mem;
      LiveInPool(st, l, ptr, |file|);
      for i := 0 to |file|
        invariant k.Valid() && ledger == l && Separate() && k.Table() == st.table && Values() == st.procs
        invariant ptr + |file| <= WORD_LIMIT
        invariant forall x :: 0 <= x < WORD_LIMIT ==> k.mem[x] == if ptr <= x < ptr + i then file[x - ptr] else m[x]
      {
        k.mem := k.mem[ptr + i := file[i]];
        assert Values() == st.procs;
      }
      ReadIsStore(st, l, pid, ptr, |file|, Shown());
      StoreStep(st, l, Shown());
    }

    /** The whole life of a process with an ELF file whose headers stay inside the image and off the heap's addresses:
        start, read the file, load it, terminate. The heap is then as before but for the process's own block and the
        path list. */
    method LifeOfElf(pid: nat, process: Word, record: Word, file: seq<Byte>, task: Word,
                     parts: nat) returns (ghost x: Leak)
      requires IsSize(process) && IsSize(record) && IsSize(|file|) && IsSize(task) && IsElf(file)
      requires HeadersInside(FileHeaders(file), Blocks(|file|))
      requires Valid() && pid !in procs && Gone(ledger, pid)
      requires HasFit(k.Table(), LaunchBlocks(process, record, |file|, task, parts))
      modifies this, k`mem, k.heap.entries
      ensures Valid() && procs == old(procs) && x.Counted(false, parts)
      ensures var kept := x.Lengths(false, Blocks(process), Blocks(record), Blocks(|file|));
              ledger == WithKept(old(ledger), kept) && Adds(old(k.Table()), kept, k.Table())
      ensures |FreeBlocks(old(k.Table()))| == |FreeBlocks(k.Table())| + Blocks(process) + (2 * parts + 1)
    {
      hide Inv; hide HasFit; hide Gone; hide Recorded; hide Tidy; hide Started; hide ToSet; hide Before;
      hide HeadersInside;
      hide LaunchBlocks; hide Adds; hide Holds; hide FileHeaders; hide IsElf; hide Blocks; hide Leak.Lengths;
      hide Flat; hide MapsOpen; hide HeadersClean; hide SegmentsLoaded; hide FreeBlocks;
      ghost var t0, l0 := k.Table(), ledger;
      RecordExact(Shown(), l0);
      var own;
      own, x := StartElf(pid, process, record, file, task, parts);
      ghost var before, kept := old(procs), x.Lengths(false, Blocks(process), Blocks(record), Blocks(|file|));
      AddThenRemove(before, pid, procs[pid]);
      Finish(pid, own, t0, l0, kept);
      LifeCosts(t0, k.Table(), x, false, parts, Blocks(process), Blocks(record), Blocks(|file|));
      assert procs == before;
    }

    /** Read and map the ELF file of a process that was started: the process can use its stack, and, where the headers
        are clean, reads the bytes of the file at the addresses of every segment. */
    method LoadElf(pid: nat, own: Belongings, file: seq<Byte>) returns (res: int)
      requires IsSize(|file|) && IsElf(file) && HeadersInside(FileHeaders(file), Blocks(|file|))
      requires Laid(own, false, |file|, ledger.live)
      requires Valid() && pid in procs && Recorded(ledger, pid, own)
      requires Tidy(Shown(), ledger, pid, ToSet(Before(own.program, own.stack)))
      requires Owns(ledger, HeadOf(own.stack), Image(pid)) && Owns(ledger, HeadOf(ImagePointer(own)), Image(pid))
      modifies k`mem
      ensures Valid() && ledger == old(ledger) && Tidy(Shown(), ledger, pid, ToSet(Before(own.program, own.stack)))
      ensures res == 0 && FileAt(k.mem, ImagePointer(own), file)
      ensures MapsOpen(Flat(k.mem, procs[pid].dir), 0x3FB000, own.stack, 0x4000)
      ensures HeadersClean(FileHeaders(file)) ==>
                SegmentsLoaded(Flat(k.mem, procs[pid].dir), k.mem, ImagePointer(own), file)
    {
      hide Inv; hide Recorded; hide Tidy; hide ToSet; hide Next; hide HeadersInside; hide FileHeaders; hide IsElf;
      hide MapsOpen; hide SegmentsLoaded; hide HeadersClean; hide HeadersApart;
      hide Harmless; hide LoadRanges; hide Before; hide Flat; hide Isolated; hide Remapped; hide FileAt;
      ghost var st, l := Shown(), ledger;
      RecordedInHeap(l, pid, own);
      var ptr, stack := ImagePointer(own), own.stack;
      ReadFile(pid, ptr, file);
      assert Values() == st.procs;
      TidySame(st, l, pid, ToSet(Before(own.program, stack)), Shown());
      ghost var st1 := Shown();
      LiveInPool(st1, l, ptr, |file|);
      LiveInPool(st1, l, stack, STACK_SIZE);
      ElfHarmless(st1, l, pid, ptr, HeadOf(ptr), file, stack, HeadOf(stack));
      res := LoadProgram(pid, FileType.Elf(ptr), stack);
      assert Values() == st1.procs;
      ElfLoaded(st1, l, pid, ptr, file, stack, Shown());
      TidySame(st1, l, pid, ToSet(Before(own.program, stack)), Shown());
    }

    /** process_map_memory of a flat binary that was started: the process can use its image, from 0x400000 on, and its
        stack, and the image is as it was. */
    method LoadFlat(pid: nat, own: Belongings, image: Word) returns (res: int)
      requires Valid() && pid in procs && Recorded(ledger, pid, own)
      requires Tidy(Shown(), ledger, pid, ToSet(Before(own.program, own.stack)))
      requires Laid(own, true, image, ledger.live) && IsSize(image) && PROGRAM_ADDRESS + image <= HEAP_BASE
      requires Owns(ledger, HeadOf(own.stack), Image(pid)) && Owns(ledger, HeadOf(ImagePointer(own)), Image(pid))
      modifies k`mem
      ensures Valid() && ledger == old(ledger) && Tidy(Shown(), ledger, pid, ToSet(Before(own.program, own.stack)))
      ensures res == 0 && MapsOpen(Flat(k.mem, procs[pid].dir), 0x400000, ImagePointer(own), image)
      ensures MapsOpen(Flat(k.mem, procs[pid].dir), 0x3FB000, own.stack, 0x4000)
      ensures forall x :: ImagePointer(own) <= x < ImagePointer(own) + image && x < WORD_LIMIT ==>
                k.mem[x] == old(k.mem)[x]
    {
      hide Inv; hide Recorded; hide Tidy; hide ToSet; hide Next; hide MapsOpen;
      hide Harmless; hide LoadRanges; hide Before; hide Flat; hide Isolated; hide Remapped;
      ghost var st, l := Shown(), ledger;
      RecordedInHeap(l, pid, own);
      var ptr, stack := ImagePointer(own), own.stack;
      BinaryHarmless(st, l, pid, ptr, image, stack, k.mem, procs[pid].dir, procs[pid].allocations[..]);
      res := LoadProgram(pid, FileType.Binary(ptr, image), stack);
      assert Values() == st.procs;
      FlatLoaded(st, l, pid, ptr, image, stack, Shown());
      TidySame(st, l, pid, ToSet(Before(own.program, stack)), Shown());
    }
  }

  const PATH_ROOT_SIZE: Word := 8
  const PATH_PART_SIZE: Word := 8
  const FAT_DESCRIPTOR_SIZE: Word := 8
  const FAT_ITEM_SIZE: Word := 8
  const DIRECTORY_ITEM_SIZE: Word := 32
  const FILE_DESCRIPTOR_SIZE: Word := 16
  const MAX_PATH: Word := 108

  /** The blocks of an open file that fclose gives back. */
  datatype OpenedFile = OpenedFile(descriptor: Word, item: Word, copy: Word, file: Word)
  {
    predicate InHeap() {
      HeapPointer(descriptor) && HeapPointer(item) && HeapPointer(copy) && HeapPointer(file)
    }

    function Heads(): set<nat>
      requires InHeap()
    {
      {HeadOf(descriptor), HeadOf(item), HeadOf(copy), HeadOf(file)}
    }

    predicate Distinct()
      requires InHeap()
    {
      && HeadOf(copy) != HeadOf(item) && HeadOf(descriptor) !in {HeadOf(copy), HeadOf(item)}
      && HeadOf(file) !in {HeadOf(copy), HeadOf(item), HeadOf(descriptor)}
    }
  }

  lemma SmallBlocks()
    ensures Blocks(PATH_ROOT_SIZE) == Blocks(PATH_PART_SIZE) == Blocks(MAX_PATH) == 1
    ensures Blocks(FAT_DESCRIPTOR_SIZE) == Blocks(FAT_ITEM_SIZE) == Blocks(DIRECTORY_ITEM_SIZE) == 1
    ensures Blocks(FILE_DESCRIPTOR_SIZE) == 1
  {
  }

  /** One more block of a list of single blocks. */
  lemma OneBlockMore(kept: Live, heads: set<nat>, h: nat, kept': Live)
    requires h !in WithSingles(kept, heads) && kept' == WithSingles(kept, heads)[h := 1] && heads !! kept.Keys
    ensures kept' == WithSingles(kept, heads + {h}) && heads + {h} !! kept.Keys && |heads + {h}| == |heads| + 1
  {
    SinglesOne(kept, heads, h);
  }

  lemma FourTaken(kept: Live, a: nat, b: nat, c: nat, d: nat)
    requires a !in kept && b !in kept[a := 1] && c !in kept[a := 1][b := 1] && d !in kept[a := 1][b := 1][c := 1]
    ensures kept[a := 1][b := 1][c := 1][d := 1] == WithSingles(kept, {a, b, c, d}) && {a, b, c, d} !! kept.Keys
    ensures c != b && a !in {c, b} && d !in {c, b, a}
  {
  }

  lemma SinglesKeys(kept: Live, hs: set<nat>)
    ensures WithSingles(kept, hs).Keys == kept.Keys + hs
  {
  }

  lemma LessRoom(t: seq<Entry>, n: nat, more: nat)
    requires HasFit(t, more) && n <= more
    ensures HasFit(t, n)
  {
    var s :| FreeRun(t, s, more);
    assert FreeRun(t, s, n);
  }

  predicate IsSize(size: int) {
    1 <= size <= WORD_LIMIT - BLOCK_SIZE
  }

  function Nothing(): Ledger {
    Ledger(map[], map[])
  }

  /** As many blocks as process_load_data takes at most, those in between included. */
  function DataBlocks(record: Word, image: Word, parts: nat): nat {
    Blocks(record) + 2 * (2 * parts + 6 + Blocks(image))
  }

  /** As many as starting a process takes. */
  function LaunchBlocks(process: Word, record: Word, image: Word, task: Word, parts: nat): nat {
    Blocks(process) + (DataBlocks(record, image, parts) + (Blocks(STACK_SIZE) + (Blocks(task) + 1026)))
  }

  /** Program and stack are aligned, and as long as asked for. */
  predicate Laid(own: Belongings, flat: bool, image: Word, live: Live) {
    && HeapPointer(own.stack) && own.stack % PAGE == 0
    && HeadOf(own.stack) in live && live[HeadOf(own.stack)] == Blocks(STACK_SIZE)
    && (own.program.Binary? <==> flat) && (own.program.Elf? <==> !flat)
    && HeapPointer(ImagePointer(own)) && ImagePointer(own) % PAGE == 0
    && HeadOf(ImagePointer(own)) in live && live[HeadOf(ImagePointer(own))] == Blocks(image)
  }

  lemma LaidBinary(pid: nat, ptr: Word, image: Word, stack: Word, task: Word, taskSize: nat,
                   m1: Ledger, m2: Ledger, mine: Ledger)
    requires HeapPointer(ptr) && ptr % PAGE == 0 && HeapPointer(stack) && stack % PAGE == 0 && HeapPointer(task)
    requires m1 == Add(Nothing(), HeadOf(ptr), Blocks(image), Image(pid))
    requires m2 == Add(m1, HeadOf(stack), Blocks(STACK_SIZE), Image(pid)) && HeadOf(stack) !in m1.live
    requires mine == Add(m2, HeadOf(task), taskSize, KernelData) && HeadOf(task) !in m2.live
    ensures var own := Belongings(Termination.Program.Binary(ptr), stack, task);
            Equipped(mine, pid, own) && Laid(own, true, image, mine.live)
  {
    hide Equipped;
    EquippedBinary(pid, ptr, Blocks(image), stack, Blocks(STACK_SIZE), task, taskSize, mine);
  }

  lemma LaidElf(pid: nat, file: Word, record: nat, ptr: Word, image: Word, stack: Word, task: Word, taskSize: nat,
                m1: Ledger, m2: Ledger, m3: Ledger, mine: Ledger)
    requires HeapPointer(ptr) && ptr % PAGE == 0 && HeapPointer(stack) && stack % PAGE == 0
    requires HeapPointer(task) && HeapPointer(file)
    requires m1 == Add(Nothing(), HeadOf(file), record, KernelData)
    requires m2 == Add(m1, HeadOf(ptr), Blocks(image), Image(pid)) && HeadOf(ptr) !in m1.live
    requires m3 == Add(m2, HeadOf(stack), Blocks(STACK_SIZE), Image(pid)) && HeadOf(stack) !in m2.live
    requires mine == Add(m3, HeadOf(task), taskSize, KernelData) && HeadOf(task) !in m3.live
    ensures var own := Belongings(Termination.Program.Elf(ptr, file), stack, task);
            Equipped(mine, pid, own) && Laid(own, false, image, mine.live)
  {
    hide Equipped;
    EquippedElf(pid, file, record, ptr, Blocks(image), stack, Blocks(STACK_SIZE), task, taskSize, mine);
  }

  lemma NothingTracked(l: Ledger, st: World)
    requires Inv(st, l)
    ensures Tracks(l, l, map[], Nothing())
  {
    TracksNothing(l);
  }

  /** Loading a flat binary that ends below the heap's addresses is harmless: program and stack are the process's. */
  lemma BinaryHarmless(st: World, l: Ledger, pid: nat, ptr: PageAddr, size: Word, stack: PageAddr, m: Mem,
                       dir: PageAddr,
                       allocs: seq<Allocation>)
    requires HeapPointer(ptr) && HeapPointer(stack) && IsSize(size) && PROGRAM_ADDRESS + size <= HEAP_BASE
    requires Owns(l, HeadOf(ptr), Image(pid)) && l.live[HeadOf(ptr)] == Blocks(size)
    requires Owns(l, HeadOf(stack), Image(pid)) && l.live[HeadOf(stack)] == Blocks(STACK_SIZE)
    requires Inv(st, l)
    ensures FileType.Binary(ptr, size).Readable(m, dir) && stack + STACK_SIZE < WORD_LIMIT
    ensures Harmless(l, pid, allocs, LoadRanges(m, dir, FileType.Binary(ptr, size), stack))
  {
    hide Inv; hide Harmless; hide AlignAddress;
    LiveInPool(st, l, ptr, size);
    LiveInPool(st, l, stack, STACK_SIZE);
    PoolRange(Allocation(ptr, size));
    var b, s := BinaryRange(ptr, size), StackRange(stack);
    assert b.count == Blocks(size) && s.count == Blocks(STACK_SIZE) == 4;
    InsideBelow(l, HeadOf(ptr), b);
    InsideBelow(l, HeadOf(stack), s);
    InsideIsHarmless(l, pid, allocs, [b, s], [HeadOf(ptr), HeadOf(stack)]);
  }

  /** A call whose pages end below the heap's and whose frames are a whole allocation. */
  lemma InsideBelow(l: Ledger, head: nat, r: Range)
    requires r.Fits() && head in l.live && head + l.live[head] <= HEAP_BLOCKS && r.phys == HEAP_BASE + head * PAGE
    requires r.count == l.live[head] && r.page + r.count <= HEAP_BASE / PAGE
    ensures Inside(l, head, r)
  {
  }

  lemma LifeOver(t0: seq<Entry>, l0: Ledger, l: Ledger, pid: nat, own: Belongings, kept: Live, p: Proc,
                 st: World, l': Ledger)
    requires own.InHeap() && l' == Termination.Without(l, p, own, st.mem) && Gone(l0, pid) && Gone(l', pid)
    requires KeepsRest(l, l', pid, ToSet(Before(own.program, own.stack)) + {HeadOf(own.task)})
    requires Started(l0, l, pid, kept, ToSet(Before(own.program, own.stack)) + {HeadOf(own.task)})
    requires |t0| == HEAP_BLOCKS && Holds(t0, l0.live) && l0.live.Keys == l0.owner.Keys
    requires Inv(st, l')
    ensures l' == WithKept(l0, kept) && Adds(t0, kept, st.table)
  {
    hide ToSet; hide Termination.Without; hide Gone; hide ProcOk; hide Before;
    var others := ToSet(Before(own.program, own.stack)) + {HeadOf(own.task)};
    assert l0.live.Keys !! kept.Keys by { StartedKept(l0, l, pid, kept, others); }
    WithoutLeaves(l, p, own, st.mem);
    OnlyKeptLeft(l0, l, pid, kept, others, l');
    AddsKept(t0, l0.live, kept, st.table);
  }

  lemma StartedKept(l0: Ledger, l: Ledger, pid: nat, kept: Live, others: set<nat>)
    requires Started(l0, l, pid, kept, others)
    ensures l0.live.Keys !! kept.Keys
  {
  }

  lemma AddThenRemove(m: map<nat, Process>, pid: nat, p: Process)
    requires pid !in m
    ensures m[pid := p] - {pid} == m
  {
  }

  lemma RecordExact(st: World, l: Ledger)
    requires Inv(st, l)
    ensures |st.table| == HEAP_BLOCKS && Holds(st.table, l.live) && l.live.Keys == l.owner.Keys
  {
  }

  lemma LaunchDone(l0: Ledger, st: World, l: Ledger, kept: Live, mine: Ledger, pid: nat, own: Belongings,
                   dir: PageAddr, chunk: PageAddr, st': World, l': Ledger)
    requires |st.table| == HEAP_BLOCKS && Next(st, l, Isolation.Op.Spawn(pid, dir, chunk), st', l')
    requires Tracks(l0, l, kept, mine) && Equipped(mine, pid, own) && Gone(l0, pid)
    requires Inv(st, l)
    ensures own.InHeap() && Recorded(l', pid, own) && Tidy(st', l', pid, ToSet(Before(own.program, own.stack)))
    ensures Started(l0, l', pid, kept, ToSet(Before(own.program, own.stack)) + {HeadOf(own.task)})
    ensures forall h :: h in mine.live ==> h in l'.live && l'.live[h] == mine.live[h]
    ensures Owns(l', HeadOf(own.stack), Image(pid))
    ensures !own.program.Unknown? && HeapPointer(ImagePointer(own)) && Owns(l', HeadOf(ImagePointer(own)), Image(pid))
  {
    hide Inv; hide SpawnNext; hide Tracks; hide Gone; hide Tidy; hide Recorded; hide Started; hide ToSet;
    InBefore(mine, pid, own);
    Launched(l0, st, l, kept, mine, pid, own, dir, chunk, st', l');
  }
}
