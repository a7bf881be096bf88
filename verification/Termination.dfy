/**
 process_terminate's memory side: sweep the allocation table, then free the page directory.
 */
module Termination {
  import opened Bits
  import opened Memory
  import opened BlockTable
  import opened KernelHeap
  import opened PageMap
  import opened Kernel
  import opened Processes
  import opened Isolation
  import opened Status

  /** The heads of the allocations in the first n slots. */
  ghost function Heads(allocs: seq<Allocation>, n: nat): set<nat>
    requires n <= |allocs|
  {
    set i | 0 <= i < n && allocs[i].ptr >= HEAP_BASE :: (allocs[i].ptr - HEAP_BASE) / BLOCK_SIZE
  }

  /** The machine and one process object show the world st. */
  ghost predicate Shows(k: Machine, p: Process, st: World, pid: nat)
    reads k, k.heap.entries, p.allocations
  {
    && k.Valid() && p.Valid() && k.Table() == st.table && k.mem == st.mem
    && pid in st.procs && st.procs[pid] == Proc(p.dir, p.chunk, p.allocations[..])
  }

  /** One turn of the sweep: process_free of an occupied slot. */
  method FreeSlot(k: Machine, p: Process, i: nat, ghost st: World, ghost l: Ledger, ghost pid: nat)
    returns (ghost st': World, ghost l': Ledger)
    requires Shows(k, p, st, pid) && i < MAX_ALLOCATIONS && p.allocations[i].ptr >= HEAP_BASE
    requires forall j :: 0 <= j < i ==> p.allocations[j].ptr == 0
    requires Inv(st, l)
    modifies k`mem, k.heap.entries, p.allocations
    ensures Inv(st', l') && Shows(k, p, st', pid)
    ensures p.allocations[..] == old(p.allocations[..])[i := EMPTY]
    ensures st'.procs == st.procs[pid := st'.procs[pid]]
    ensures l' == Remove(l, {(old(p.allocations[i].ptr) - HEAP_BASE) / BLOCK_SIZE})
    ensures Next(st, l, Isolation.Op.Free(pid, old(p.allocations[i].ptr)), st', l')
  {
    hide HeapPagesOk; hide OtherPagesOk; hide StructureOk;
    var ptr := p.allocations[i].ptr;
    ghost var allocs := p.allocations[..];
    CallsAreReady(st, l, pid);
    assert ProcOk(st, l, pid) && SlotOk(l, pid, i, allocs[i]);
    SlotUnique(l, pid, allocs, i);
    FindSlotIs(allocs, ptr, i);
    p.Free(k, ptr);
    st' := World(k.Table(), k.mem, st.procs[pid := Proc(p.dir, p.chunk, p.allocations[..])]);
    l' := Remove(l, {(ptr - HEAP_BASE) / BLOCK_SIZE});
    FreeKeepsInv(st, l, pid, ptr, st', l');
  }

  /** process_terminate_allocations, over the occupied slots. */
  method TerminateAllocations(k: Machine, p: Process, ghost st: World, ghost l: Ledger, ghost pid: nat)
    returns (ghost ops: seq<Isolation.Op>, ghost st': World, ghost l': Ledger)
    requires Inv(st, l) && Shows(k, p, st, pid)
    modifies k`mem, k.heap.entries, p.allocations
    ensures Inv(st', l') && Shows(k, p, st', pid) && Leads(Moment(st, l), ops, Moment(st', l'))
    ensures forall i :: 0 <= i < MAX_ALLOCATIONS ==> p.allocations[i].ptr == 0
    ensures st'.procs == st.procs[pid := st'.procs[pid]]
    ensures l' == Remove(l, Heads(st.procs[pid].allocs, MAX_ALLOCATIONS))
  {
    hide Inv; hide ProcOk; hide Resident; hide Next; hide Leads; hide Heads; hide Remove;
    NoHeads(l, st.procs[pid].allocs);
    ops, st', l' := [], st, l;
    LeadsNowhere(Moment(st, l));
    ghost var first := st.procs[pid].allocs;
    assert l' == Remove(l, Heads(first, 0));
    for i := 0 to MAX_ALLOCATIONS
      invariant Inv(st', l') && Shows(k, p, st', pid) && Leads(Moment(st, l), ops, Moment(st', l'))
      invariant st'.procs == st.procs[pid := st'.procs[pid]]
      invariant forall j :: 0 <= j < i ==> p.allocations[j].ptr == 0
      invariant p.allocations[i..] == first[i..]
      invariant l' == Remove(l, Heads(first, i))
    {
      HeadsNext(first, i);
      assert p.allocations[i] == first[i..][0];
      if p.allocations[i].ptr != 0 {
        CallsAreReady(st', l', pid);
        assert InPool(p.allocations[..][i]);
        RemoveMore(l, Heads(first, i), (first[i].ptr - HEAP_BASE) / BLOCK_SIZE);
        ghost var b, ptr := Moment(st', l'), p.allocations[i].ptr;
        st', l' := FreeSlot(k, p, i, st', l', pid);
        LeadsFurther(Moment(st, l), ops, b, Isolation.Op.Free(pid, ptr), Moment(st', l'));
        ops := ops + [Isolation.Op.Free(pid, ptr)];
      }
      assert p.allocations[i + 1..] == first[i + 1..];
    }
  }

  lemma NoHeads(l: Ledger, allocs: seq<Allocation>)
    ensures Remove(l, Heads(allocs, 0)) == l
  {
  }

  lemma HeadsNext(allocs: seq<Allocation>, i: nat)
    requires i < |allocs|
    ensures Heads(allocs, i + 1) ==
            if allocs[i].ptr >= HEAP_BASE then Heads(allocs, i) + {(allocs[i].ptr - HEAP_BASE) / BLOCK_SIZE}
            else Heads(allocs, i)
  {
  }

  predicate HeapPointer(ptr: Word) {
    HEAP_BASE <= ptr < HEAP_BASE + HEAP_SIZE
  }

  /** The block of a heap pointer. */
  function HeadOf(ptr: Word): nat
    requires HeapPointer(ptr)
  {
    (ptr - HEAP_BASE) / BLOCK_SIZE
  }

  /** Where the program of a process was loaded: a flat binary, or an ELF file with its record; or neither. */
  datatype Program = Binary(ptr: Word) | Elf(memory: Word, file: Word) | Unknown
  {
    predicate InHeap() {
      match this
      case Binary(ptr) => HeapPointer(ptr)
      case Elf(memory, file) => HeapPointer(memory) && HeapPointer(file)
      case Unknown => true
    }

    function Heads(): seq<nat>
      requires InHeap()
    {
      match this
      case Binary(ptr) => [HeadOf(ptr)]
      case Elf(memory, file) => [HeadOf(memory), HeadOf(file)]
      case Unknown => []
    }
  }

  /** The kernel's own blocks of a process: distinct, and recorded for its image or for the kernel. */
  ghost predicate Disposables(l: Ledger, heads: seq<nat>, pid: nat) {
    && (forall i :: 0 <= i < |heads| ==> Disposable(l, heads[i], pid))
    && (forall i, j :: 0 <= i < j < |heads| ==> heads[i] != heads[j])
  }

  lemma FreedTwice(t: seq<Entry>, a: nat, b: nat)
    ensures FreedAll(t, [a]) == Freed(t, a) && FreedAll(t, [a, b]) == Freed(Freed(t, a), b)
  {
    assert [a][..0] == [] && [a, b][..1] == [a];
  }

  /** process_free_program_data. */
  method FreeProgramData(k: Machine, program: Program) returns (res: int)
    requires k.Valid() && program.InHeap()
    modifies k.heap.entries
    ensures k.Table() == FreedAll(old(k.Table()), program.Heads())
    ensures res == if program.Unknown? then -EINVARG else 0
  {
    ghost var t := k.Table();
    match program {
      case Binary(ptr) =>
        k.Kfree(ptr);
        FreedTwice(t, HeadOf(ptr), 0);
      case Elf(memory, file) =>
        k.Kfree(memory);
        k.Kfree(file);
        FreedTwice(t, HeadOf(memory), HeadOf(file));
      case Unknown =>
        return -EINVARG;
    }
    res := 0;
  }

  /** The blocks that go before the directory: the program's, then the stack. */
  function Before(program: Program, stack: Word): seq<nat>
    requires program.InHeap() && HeapPointer(stack)
  {
    program.Heads() + [HeadOf(stack)]
  }

  lemma FreedOneMore(t: seq<Entry>, heads: seq<nat>, h: nat)
    ensures FreedAll(t, heads + [h]) == Freed(FreedAll(t, heads), h)
  {
    assert (heads + [h])[..|heads|] == heads;
  }

  /** The sweep frees data blocks only. */
  lemma HeadsAreData(st: World, l: Ledger, pid: nat)
    requires Inv(st, l) && pid in st.procs
    ensures forall h :: h in Heads(st.procs[pid].allocs, MAX_ALLOCATIONS) ==> h in l.owner && l.owner[h].Data?
  {
    CallsAreReady(st, l, pid);
    var allocs := st.procs[pid].allocs;
    forall h | h in Heads(allocs, MAX_ALLOCATIONS) ensures h in l.owner && l.owner[h].Data? {
      var slot :| 0 <= slot < MAX_ALLOCATIONS && allocs[slot].ptr >= HEAP_BASE
          && (allocs[slot].ptr - HEAP_BASE) / BLOCK_SIZE == h;
      assert SlotOk(l, pid, slot, allocs[slot]);
    }
  }

  lemma DisposablesStay(st: World, l: Ledger, pid: nat, heads: seq<nat>)
    requires Inv(st, l) && pid in st.procs && Disposables(l, heads, pid)
    ensures Disposables(Remove(l, Heads(st.procs[pid].allocs, MAX_ALLOCATIONS)), heads, pid)
  {
    hide Heads; hide Inv;
    HeadsAreData(st, l, pid);
  }

  lemma DestroyStep(st: World, l: Ledger, pid: nat, before: seq<nat>, st': World, l': Ledger)
    requires Inv(st, l) && pid in st.procs && Disposables(l, before, pid)
    requires forall i :: 0 <= i < |st.procs[pid].allocs| ==> st.procs[pid].allocs[i].ptr == 0
    requires Released(FreedAll(st.table, before), st.mem, st.procs[pid].dir, st.procs[pid].chunk, st'.table)
    requires st'.mem == st.mem && st'.procs == st.procs - {pid}
    requires l' == Remove(Remove(l, ToSet(before)), PtBlocks(st.mem, st.procs[pid].dir, st.procs[pid].chunk))
    ensures Next(st, l, Isolation.Op.Destroy(pid, before), st', l') && Inv(st', l')
  {
    NextKeeps(st, l, Isolation.Op.Destroy(pid, before), st', l');
  }

  /** After the sweep: free the program and the stack, then the directory. */
  method DestroyMemory(k: Machine, p: Process, program: Program, stack: Word, ghost st: World, ghost l: Ledger,
                       ghost ops1: seq<Isolation.Op>, ghost st1: World, ghost l1: Ledger, ghost pid: nat)
    returns (ghost ops: seq<Isolation.Op>, ghost st': World, ghost l': Ledger)
    requires Inv(st1, l1) && Shows(k, p, st1, pid) && Leads(Moment(st, l), ops1, Moment(st1, l1))
    requires forall i :: 0 <= i < MAX_ALLOCATIONS ==> p.allocations[i].ptr == 0
    requires st1.procs - {pid} == st.procs - {pid}
    requires program.InHeap() && !program.Unknown? && HeapPointer(stack) && Disposables(l1, Before(program, stack), pid)
    modifies k.heap.entries
    ensures k.Valid() && Inv(st', l') && st' == World(k.Table(), k.mem, st.procs - {pid})
    ensures Leads(Moment(st, l), ops, Moment(st', l'))
    ensures l' == Remove(Remove(l1, ToSet(Before(program, stack))), PtBlocks(k.mem, p.dir, p.chunk))
  {
    hide Inv; hide Released; hide Next; hide Resident; hide PtBlocks; hide DestroyNext; hide Leads;
    hide Disposables; hide FreedAll; hide ToSet;
    ghost var before := Before(program, stack);
    BeforeDirectory(st1, l1, pid, before);
    FreedOneMore(k.Table(), program.Heads(), HeadOf(stack));
    var res := FreeProgramData(k, program);
    k.Kfree(stack);
    k.PagingFree4gb(p.chunk, p.dir);
    st' := World(k.Table(), k.mem, st.procs - {pid});
    l' := Remove(Remove(l1, ToSet(before)), PtBlocks(k.mem, p.dir, p.chunk));
    DestroyStep(st1, l1, pid, before, st', l');
    LeadsFurther(Moment(st, l), ops1, Moment(st1, l1), Isolation.Op.Destroy(pid, before), Moment(st', l'));
    ops := ops1 + [Isolation.Op.Destroy(pid, before)];
  }

  lemma BeforeDirectory(st: World, l: Ledger, pid: nat, before: seq<nat>)
    requires Inv(st, l) && pid in st.procs && Disposables(l, before, pid)
    ensures Resident(FreedAll(st.table, before), st.mem, st.procs[pid].dir, st.procs[pid].chunk)
  {
    PtSurvives(st, l, pid, before);
  }

  lemma OwnBlockStays(st: World, l: Ledger, pid: nat, before: seq<nat>, h: nat)
    requires Inv(st, l) && pid in st.procs && h in l.owner && l.owner[h].KernelData? && h !in before
    ensures var l' := Remove(Remove(l, ToSet(before)), PtBlocks(st.mem, st.procs[pid].dir, st.procs[pid].chunk));
            h in l'.owner && l'.owner[h].KernelData?
  {
    hide Inv;
    PtBlocksOwned(st, l, pid);
  }

  lemma KernelFreeStep(st: World, l: Ledger, h: nat, st': World, l': Ledger)
    requires Inv(st, l) && h in l.owner && l.owner[h].KernelData? && l' == Remove(l, {h})
    requires st' == World(Freed(st.table, h), st.mem, st.procs)
    ensures Next(st, l, Isolation.Op.KernelFree(h), st', l') && Inv(st', l')
  {
    NextKeeps(st, l, Isolation.Op.KernelFree(h), st', l');
  }

  /** The blocks the kernel holds for a process besides its paging structure. */
  datatype Belongings = Belongings(program: Program, stack: Word, task: Word)
  {
    predicate InHeap() {
      program.InHeap() && HeapPointer(stack) && HeapPointer(task)
    }
  }

  /** They are distinct, and recorded for the image of pid or for the kernel. */
  ghost predicate Recorded(l: Ledger, pid: nat, own: Belongings) {
    && own.InHeap() && !own.program.Unknown?
    && Disposables(l, Before(own.program, own.stack), pid)
    && HeadOf(own.task) in l.owner && l.owner[HeadOf(own.task)].KernelData?
    && HeadOf(own.task) !in Before(own.program, own.stack)
  }

  /** What is left of the record when a process is gone. */
  ghost function Without(l: Ledger, p: Proc, own: Belongings, m: Mem): Ledger
    requires own.InHeap()
  {
    Remove(Remove(Remove(Remove(l, Heads(p.allocs, |p.allocs|)), ToSet(Before(own.program, own.stack))),
                  PtBlocks(m, p.dir, p.chunk)), {HeadOf(own.task)})
  }

  /** Nothing in the record belongs to the process. */
  ghost predicate Gone(l: Ledger, pid: nat) {
    forall h :: h in l.owner ==> !BelongsTo(l.owner[h], pid)
  }

  predicate OfStructure(o: Owner) {
    o.ChunkOf? || o.DirOf? || o.TableOf?
  }

  predicate SlotHeld(a: Allocation, h: nat) {
    HeapPointer(a.ptr) && HeadOf(a.ptr) == h
  }

  /** An entry of the record is accounted for: an image block is one of the given, data lies in its slot. */
  ghost predicate EntryTidy(allocs: seq<Allocation>, images: set<nat>, h: nat, o: Owner) {
    match o
    case Image(_) => h in images
    case TableOf(_, i) => i < TABLE_LEN
    case Data(_, slot) => slot < |allocs| && SlotHeld(allocs[slot], h)
    case _ => true
  }

  lemma GoneStays(l: Ledger, pid: nat, h: nat)
    requires Gone(l, pid)
    ensures Gone(Remove(l, {h}), pid)
  {
  }

  /** Everything that the record has for the process is accounted for, and no part of its structure is there twice. */
  ghost predicate Tidy(st: World, l: Ledger, pid: nat, images: set<nat>) {
    && pid in st.procs
    && (forall h :: h in l.owner && BelongsTo(l.owner[h], pid) ==>
          EntryTidy(st.procs[pid].allocs, images, h, l.owner[h]))
    && OncePerPart(l, pid)
  }

  ghost predicate OncePerPart(l: Ledger, pid: nat) {
    forall h, g :: h in l.owner && g in l.owner && l.owner[h] == l.owner[g] ==>
      BelongsTo(l.owner[h], pid) && OfStructure(l.owner[h]) ==> h == g
  }

  /** After the sweep the record has no data of the process. */
  lemma SweptTidy(st: World, l: Ledger, pid: nat, images: set<nat>, st1: World, l1: Ledger)
    requires Tidy(st, l, pid, images) && |st.procs[pid].allocs| == MAX_ALLOCATIONS && pid in st1.procs
    requires l1 == Remove(l, Heads(st.procs[pid].allocs, MAX_ALLOCATIONS))
    ensures Tidy(st1, l1, pid, images) && forall h :: h in l1.owner && BelongsTo(l1.owner[h], pid) ==>
              !l1.owner[h].Data?
  {
    forall h | h in l1.owner && BelongsTo(l1.owner[h], pid)
      ensures !l1.owner[h].Data? && EntryTidy(st1.procs[pid].allocs, images, h, l1.owner[h])
    {
      assert EntryTidy(st.procs[pid].allocs, images, h, l.owner[h]);
    }
  }

  /** With the program, the stack and the structure gone nothing is left. */
  lemma AllGone(st: World, l: Ledger, pid: nat, before: seq<nat>)
    requires Tidy(st, l, pid, ToSet(before))
    requires forall h :: h in l.owner && BelongsTo(l.owner[h], pid) ==> !l.owner[h].Data?
    requires Inv(st, l)
    ensures Gone(Remove(Remove(l, ToSet(before)), PtBlocks(st.mem, st.procs[pid].dir, st.procs[pid].chunk)), pid)
  {
    hide Inv; hide ToSet; hide TableAddr; hide OwnsPage;
    var p := st.procs[pid];
    forall h | h in l.owner && BelongsTo(l.owner[h], pid) && h !in ToSet(before)
      ensures h in PtBlocks(st.mem, p.dir, p.chunk)
    {
      assert EntryTidy(p.allocs, ToSet(before), h, l.owner[h]);
      PartHeld(st, l, pid, h);
    }
  }

  /** The entry of a part of the structure is the block of that part. */
  lemma PartHeld(st: World, l: Ledger, pid: nat, h: nat)
    requires pid in st.procs && OncePerPart(l, pid)
    requires h in l.owner && BelongsTo(l.owner[h], pid) && OfStructure(l.owner[h])
    requires l.owner[h].TableOf? ==> l.owner[h].i < TABLE_LEN
    requires Inv(st, l)
    ensures h in PtBlocks(st.mem, st.procs[pid].dir, st.procs[pid].chunk)
  {
    hide TableAddr;
    var p := st.procs[pid];
    assert StructureOk(st, l, pid);
    var a: PageAddr :=
      if l.owner[h].ChunkOf? then p.chunk
      else if l.owner[h].DirOf? then p.dir
      else TableAddr(st.mem, p.dir, l.owner[h].i);
    assert HoldsPage(l, a, l.owner[h]);
    assert PtPage(st.mem, p.dir, p.chunk, a);
    assert h == BlockOf(a);
    assert BlockAddr(h) == a;
  }

  /** The record keeps everything that is neither the process's nor one of the given blocks. */
  ghost predicate KeepsRest(l: Ledger, l': Ledger, pid: nat, except: set<nat>) {
    forall h :: h in l.live && h in l.owner && !BelongsTo(l.owner[h], pid) && h !in except ==>
      Owns(l', h, l.owner[h]) && l'.live[h] == l.live[h]
  }

  lemma ExitKeepsRest(st: World, l: Ledger, pid: nat, own: Belongings, st1: World, l1: Ledger)
    requires Inv(st, l) && pid in st.procs && own.InHeap() && pid in st1.procs
    requires st1.procs[pid].dir == st.procs[pid].dir && st1.procs[pid].chunk == st.procs[pid].chunk
    requires l1 == Remove(l, Heads(st.procs[pid].allocs, MAX_ALLOCATIONS)) && Inv(st1, l1)
    requires |st.procs[pid].allocs| == MAX_ALLOCATIONS
    ensures KeepsRest(l, Without(l, st.procs[pid], own, st1.mem), pid,
                      ToSet(Before(own.program, own.stack)) + {HeadOf(own.task)})
  {
    hide Inv; hide Heads; hide ToSet; hide PtBlocks;
    HeadsAreData(st, l, pid);
    HeadsArePid(st, l, pid);
    PtBlocksOwned(st1, l1, pid);
  }

  lemma HeadsArePid(st: World, l: Ledger, pid: nat)
    requires Inv(st, l) && pid in st.procs
    ensures |st.procs[pid].allocs| == MAX_ALLOCATIONS
    ensures forall h :: h in Heads(st.procs[pid].allocs, MAX_ALLOCATIONS) ==> h in l.owner && BelongsTo(l.owner[h], pid)
  {
    CallsAreReady(st, l, pid);
    var allocs := st.procs[pid].allocs;
    forall h | h in Heads(allocs, MAX_ALLOCATIONS) ensures h in l.owner && BelongsTo(l.owner[h], pid) {
      var slot :| 0 <= slot < MAX_ALLOCATIONS && allocs[slot].ptr >= HEAP_BASE
          && (allocs[slot].ptr - HEAP_BASE) / BLOCK_SIZE == h;
      assert SlotOk(l, pid, slot, allocs[slot]);
    }
  }

  /** process_terminate's memory side as a whole: after the directory the task's own block goes. */
  method Terminate(k: Machine, p: Process, own: Belongings,
                   ghost st: World, ghost l: Ledger, ghost pid: nat)
    returns (ghost ops: seq<Isolation.Op>, ghost st': World, ghost l': Ledger)
    requires Inv(st, l) && Shows(k, p, st, pid)
    requires Recorded(l, pid, own)
    modifies k`mem, k.heap.entries, p.allocations
    ensures k.Valid() && Inv(st', l') && st' == World(k.Table(), k.mem, st.procs - {pid})
    ensures Leads(Moment(st, l), ops, Moment(st', l'))
    ensures l' == Without(l, st.procs[pid], own, k.mem)
    ensures KeepsRest(l, l', pid, ToSet(Before(own.program, own.stack)) + {HeadOf(own.task)})
    ensures Tidy(st, l, pid, ToSet(Before(own.program, own.stack))) ==> Gone(l', pid)
  {
    hide Inv; hide Next; hide PtBlocks; hide Heads; hide Leads; hide Disposables; hide ToSet;
    hide Tidy; hide Gone; hide KeepsRest;
    var program, stack, task := own.program, own.stack, own.task;
    ghost var before := Before(program, stack);
    HeadsAreData(st, l, pid);
    DisposablesStay(st, l, pid, before);
    ghost var ops1, st1, l1 := TerminateAllocations(k, p, st, l, pid);
    OwnBlockStays(st1, l1, pid, before, HeadOf(task));
    HeadsArePid(st, l, pid);
    ExitKeepsRest(st, l, pid, own, st1, l1);
    ghost var ops2, st2, l2 := DestroyMemory(k, p, program, stack, st, l, ops1, st1, l1, pid);
    k.Kfree(task);
    st' := World(k.Table(), k.mem, st.procs - {pid});
    l' := Remove(l2, {HeadOf(task)});
    KernelFreeStep(st2, l2, HeadOf(task), st', l');
    LeadsFurther(Moment(st, l), ops2, Moment(st2, l2), Isolation.Op.KernelFree(HeadOf(task)), Moment(st', l'));
    ops := ops2 + [Isolation.Op.KernelFree(HeadOf(task))];
    if Tidy(st, l, pid, ToSet(before)) {
      SweptTidy(st, l, pid, ToSet(before), st1, l1);
      AllGone(st1, l1, pid, before);
      GoneStays(l2, pid, HeadOf(task));
    }
  }
}
