/**
 The life of a process: what the kernel records for it stays accounted for in any run, until process_terminate.
 */
module Lifetime {
  import opened Bits
  import opened Memory
  import opened BlockTable
  import opened KernelHeap
  import opened PageMap
  import opened Kernel
  import opened Processes
  import opened Isolation
  import opened Termination

  /** The step leaves process pid to itself: it neither starts nor ends it, gives it no other image, and frees none of
      the kept blocks. */
  predicate Spares(op: Isolation.Op, pid: nat, kept: set<nat>) {
    match op
    case Spawn(q, _, _) => q != pid
    case Destroy(q, before) => q != pid && forall i :: 0 <= i < |before| ==> before[i] !in kept
    case KernelAlloc(_, owner) => owner != Image(pid)
    case KernelFree(h) => h !in kept
    case _ => true
  }

  /** A block that only process_terminate, or kfree by the kernel, gives back. */
  predicate Fixed(l: Ledger, h: nat) {
    h in l.live && h in l.owner && (l.owner[h].Image? || l.owner[h].KernelData?)
  }

  /** The kept blocks are recorded as before. */
  ghost predicate StillKept(l: Ledger, l': Ledger, kept: set<nat>) {
    forall h :: h in kept && Fixed(l, h) ==> Owns(l', h, l.owner[h]) && l'.live[h] == l.live[h]
  }

  /** Of what is recorded for pid, only data is new. */
  ghost predicate OnlyDataNew(l: Ledger, l': Ledger, pid: nat) {
    forall h :: h in l'.owner && BelongsTo(l'.owner[h], pid) && !l'.owner[h].Data? ==>
      h in l.owner && l.owner[h] == l'.owner[h]
  }

  /** Data of pid lies in its slot. */
  ghost predicate DataHeld(st: World, l: Ledger, pid: nat) {
    pid in st.procs &&
    forall h :: h in l.owner && BelongsTo(l.owner[h], pid) && l.owner[h].Data? ==>
      l.owner[h].slot < |st.procs[pid].allocs| && SlotHeld(st.procs[pid].allocs[l.owner[h].slot], h)
  }

  lemma TidyKept(st: World, l: Ledger, pid: nat, images: set<nat>, st': World, l': Ledger)
    requires Tidy(st, l, pid, images) && OnlyDataNew(l, l', pid) && DataHeld(st', l', pid)
    ensures Tidy(st', l', pid, images)
  {
    forall h | h in l'.owner && BelongsTo(l'.owner[h], pid)
      ensures EntryTidy(st'.procs[pid].allocs, images, h, l'.owner[h])
    {
      if !l'.owner[h].Data? {
        assert EntryTidy(st.procs[pid].allocs, images, h, l.owner[h]);
      }
    }
  }

  lemma TidyHeld(st: World, l: Ledger, pid: nat, images: set<nat>)
    requires Tidy(st, l, pid, images)
    ensures DataHeld(st, l, pid)
  {
    forall h | h in l.owner && BelongsTo(l.owner[h], pid) && l.owner[h].Data?
      ensures l.owner[h].slot < |st.procs[pid].allocs| && SlotHeld(st.procs[pid].allocs[l.owner[h].slot], h)
    {
      assert EntryTidy(st.procs[pid].allocs, images, h, l.owner[h]);
    }
  }

  // ----- Steps -----

  lemma FreshIsNew(t: seq<Entry>, live: Live, b: nat)
    requires Holds(t, live) && b < |t| && t[b] == FREE
    ensures b !in live
  {
    if b in live {
      assert Covers(live, b, b);
      assert false;
    }
  }

  /** What the steps have in common. */
  ghost predicate StepOk(st: World, l: Ledger, pid: nat, kept: set<nat>, st': World, l': Ledger) {
    StillKept(l, l', kept) && OnlyDataNew(l, l', pid) && DataHeld(st', l', pid)
  }

  /** Entries of another process are added. */
  lemma AddedOk(st: World, l: Ledger, q: nat, bs: set<nat>, os: map<nat, Owner>, pid: nat, kept: set<nat>,
                st': World, l': Ledger)
    requires l' == Ledger(l.live + Singles(bs), l.owner + os) && os.Keys == bs && q != pid && DataHeld(st, l, pid)
    requires forall b :: b in bs ==> b !in l.live && BelongsTo(os[b], q)
    requires pid in st'.procs && pid in st.procs && st'.procs[pid] == st.procs[pid]
    ensures StepOk(st, l, pid, kept, st', l')
  {
  }

  lemma SpawnOk(st: World, l: Ledger, q: nat, dir: PageAddr, chunk: PageAddr, pid: nat, kept: set<nat>,
                st': World, l': Ledger)
    requires SpawnNext(st, l, q, dir, chunk, st', l') && q != pid && DataHeld(st, l, pid)
    requires Inv(st, l)
    ensures StepOk(st, l, pid, kept, st', l')
  {
    hide TableAddr; hide OwnsPage; hide MapBuilt; hide Resident; hide StepOk; hide ProcOk; hide DataHeld;
    assert pid in st.procs by { HeldProc(st, l, pid); }
    var bs := PtBlocks(st'.mem, dir, chunk);
    forall b | b in bs ensures b !in l.live && BelongsTo(PtOwners(st'.mem, dir, chunk, q)[b], q) {
      assert BlockOf(BlockAddr(b)) == b;
      FreshIsNew(st.table, l.live, b);
    }
    AddedOk(st, l, q, bs, PtOwners(st'.mem, dir, chunk, q), pid, kept, st', l');
  }

  lemma HeldProc(st: World, l: Ledger, pid: nat)
    requires DataHeld(st, l, pid)
    ensures pid in st.procs
  {
  }

  /** One data entry is added, and lies in its slot. */
  lemma DataAddedOk(st: World, l: Ledger, q: nat, slot: nat, s: nat, n: nat, a: Allocation, pid: nat, kept: set<nat>,
                    st': World, l': Ledger)
    requires DataHeld(st, l, pid) && q in st.procs && slot < |st.procs[q].allocs| && st.procs[q].allocs[slot].ptr == 0
    requires l' == Add(l, s, n, Data(q, slot)) && s !in l.live && SlotHeld(a, s)
    requires SameProcs(st, q, st') && st'.procs[q].allocs == st.procs[q].allocs[slot := a]
    ensures StepOk(st, l, pid, kept, st', l')
  {
  }

  lemma MallocFacts(st: World, l: Ledger, q: nat, size: Word, ptr: Word, st': World, l': Ledger)
    requires |st.table| == HEAP_BLOCKS && MallocNext(st, l, q, size, ptr, st', l')
    ensures var s, slot := FirstFit(st.table, Blocks(size)), FindSlot(st.procs[q].allocs, 0);
            if s < 0 || slot == |st.procs[q].allocs| then st'.procs == st.procs && l' == l
            else && s < HEAP_BLOCKS && st.table[s] == FREE && l' == Add(l, s, Blocks(size), Data(q, slot))
                 && SlotHeld(Allocation(BlockAddr(s), size), s)
                 && st'.procs[q].allocs == st.procs[q].allocs[slot := Allocation(BlockAddr(s), size)]
  {
    hide MallocFrame; hide Mapped; hide Flat; hide SameTables; hide Marked; hide FirstFit;
    if FirstFit(st.table, Blocks(size)) < 0 || FindSlot(st.procs[q].allocs, 0) == |st.procs[q].allocs| {
      assert st'.procs == st.procs;
    }
  }

  lemma MallocOk(st: World, l: Ledger, q: nat, size: Word, ptr: Word, pid: nat, kept: set<nat>, st': World, l': Ledger)
    requires |st.table| == HEAP_BLOCKS && MallocNext(st, l, q, size, ptr, st', l') && DataHeld(st, l, pid)
    requires Holds(st.table, l.live)
    ensures StepOk(st, l, pid, kept, st', l')
  {
    hide MallocPost; hide StepOk; hide FirstFit; hide MallocLedger; hide Safe; hide DataHeld;
    var s, slot := FirstFit(st.table, Blocks(size)), FindSlot(st.procs[q].allocs, 0);
    MallocFacts(st, l, q, size, ptr, st', l');
    if s < 0 || slot == |st.procs[q].allocs| {
      SameRecord(st, l, pid, kept, st', l');
    } else {
      FreshIsNew(st.table, l.live, s);
      DataAddedOk(st, l, q, slot, s, Blocks(size), Allocation(BlockAddr(s), size), pid, kept, st', l');
    }
  }

  lemma FreeOk(st: World, l: Ledger, q: nat, ptr: Word, pid: nat, kept: set<nat>, st': World, l': Ledger)
    requires FreeNext(st, l, q, ptr, st', l') && DataHeld(st, l, pid)
    requires Inv(st, l)
    ensures StepOk(st, l, pid, kept, st', l')
  {
    hide Flat; hide SameTables; hide OnlyTables; hide Inv;
    var allocs := st.procs[q].allocs;
    var slot := FindSlot(allocs, ptr);
    if slot < |allocs| {
      assert SlotOk(l, q, slot, allocs[slot]);
      if q == pid { SlotUnique(l, q, allocs, slot); }
    }
  }

  lemma DestroyOk(st: World, l: Ledger, q: nat, before: seq<nat>, pid: nat, kept: set<nat>, st': World, l': Ledger)
    requires DestroyNext(st, l, q, before, st', l') && DataHeld(st, l, pid)
    requires Spares(Isolation.Op.Destroy(q, before), pid, kept)
    requires Inv(st, l)
    ensures StepOk(st, l, pid, kept, st', l')
  {
    hide Inv; hide PtBlocks; hide Released; hide FreedAll;
    NotImage(st, l, q);
  }

  lemma NotImage(st: World, l: Ledger, q: nat)
    requires Inv(st, l) && q in st.procs
    ensures forall b :: b in PtBlocks(st.mem, st.procs[q].dir, st.procs[q].chunk) ==>
              b in l.owner && !l.owner[b].Image? && !l.owner[b].KernelData?
  {
    forall b | b in PtBlocks(st.mem, st.procs[q].dir, st.procs[q].chunk)
      ensures b in l.owner && !l.owner[b].Image? && !l.owner[b].KernelData?
    {
      PtBlockOwned(st, l, q, BlockAddr(b));
      assert BlockOf(BlockAddr(b)) == b;
    }
  }

  lemma KernelAllocOk(st: World, l: Ledger, size: Word, owner: Owner, pid: nat, kept: set<nat>, st': World, l': Ledger)
    requires |st.table| == HEAP_BLOCKS && KernelAllocNext(st, l, size, owner, st', l') && DataHeld(st, l, pid)
    requires owner != Image(pid) && Holds(st.table, l.live)
    ensures StepOk(st, l, pid, kept, st', l')
  {
    var s := FirstFit(st.table, Blocks(size));
    if s >= 0 {
      FreshIsNew(st.table, l.live, s);
    }
  }

  lemma StepSpares(st: World, l: Ledger, op: Isolation.Op, pid: nat, kept: set<nat>, st': World, l': Ledger)
    requires |st.table| == HEAP_BLOCKS && Next(st, l, op, st', l') && Spares(op, pid, kept) && DataHeld(st, l, pid)
    requires Inv(st, l)
    ensures StepOk(st, l, pid, kept, st', l')
  {
    hide ProcOk; hide StepOk;
    match op
    case Spawn(q, dir, chunk) => SpawnOk(st, l, q, dir, chunk, pid, kept, st', l');
    case Load(q, ranges) => SameRecord(st, l, pid, kept, st', l');
    case Malloc(q, size, ptr) => MallocOk(st, l, q, size, ptr, pid, kept, st', l');
    case Free(q, ptr) => FreeOk(st, l, q, ptr, pid, kept, st', l');
    case Destroy(q, before) => DestroyOk(st, l, q, before, pid, kept, st', l');
    case KernelAlloc(size, owner) => KernelAllocOk(st, l, size, owner, pid, kept, st', l');
    case KernelFree(h) => KernelFreeOk(st, l, h, pid, kept, st', l');
    case Store => SameRecord(st, l, pid, kept, st', l');
  }

  lemma SameRecord(st: World, l: Ledger, pid: nat, kept: set<nat>, st': World, l': Ledger)
    requires st'.procs == st.procs && l' == l && DataHeld(st, l, pid)
    ensures StepOk(st, l, pid, kept, st', l')
  {
  }

  lemma KernelFreeOk(st: World, l: Ledger, h: nat, pid: nat, kept: set<nat>, st': World, l': Ledger)
    requires KernelFreeNext(st, l, h, st', l') && h !in kept && DataHeld(st, l, pid)
    ensures StepOk(st, l, pid, kept, st', l')
  {
  }

  // ----- Runs -----

  /** Over any steps that spare it, everything recorded for a process stays accounted for, and the kept blocks stay. */
  lemma {:induction false} RunSpares(run: seq<Moment>, ops: seq<Isolation.Op>, n: nat, pid: nat, images: set<nat>,
                                     kept: set<nat>)
    requires IsPath(run, ops) && n <= |ops| && Inv(run[0].st, run[0].l) && Tidy(run[0].st, run[0].l, pid, images)
    requires forall i :: 0 <= i < |ops| ==> Spares(ops[i], pid, kept)
    ensures Inv(run[n].st, run[n].l) && Tidy(run[n].st, run[n].l, pid, images)
    ensures StillKept(run[0].l, run[n].l, kept)
  {
    hide Inv; hide Next; hide Tidy; hide Spares; hide DataHeld; hide OnlyDataNew;
    if n > 0 {
      RunSpares(run, ops, n - 1, pid, images, kept);
      var a, b := run[n - 1], run[n];
      TidyHeld(a.st, a.l, pid, images);
      StepSpares(a.st, a.l, ops[n - 1], pid, kept, b.st, b.l);
      TidyKept(a.st, a.l, pid, images, b.st, b.l);
      NextKeeps(a.st, a.l, ops[n - 1], b.st, b.l);
    }
  }

  /** So at any later moment process_terminate finds what the process was started with. */
  lemma LifeKeeps(a: Moment, ops: seq<Isolation.Op>, b: Moment, pid: nat, own: Belongings, kept: set<nat>)
    requires Leads(a, ops, b) && Inv(a.st, a.l) && Recorded(a.l, pid, own)
    requires Tidy(a.st, a.l, pid, ToSet(Before(own.program, own.stack))) && a.l.live.Keys == a.l.owner.Keys
    requires ToSet(Before(own.program, own.stack)) + {HeadOf(own.task)} <= kept
    requires forall i :: 0 <= i < |ops| ==> Spares(ops[i], pid, kept)
    ensures Inv(b.st, b.l) && Recorded(b.l, pid, own)
    ensures Tidy(b.st, b.l, pid, ToSet(Before(own.program, own.stack)))
    ensures StillKept(a.l, b.l, kept)
  {
    hide Inv; hide Next; hide Tidy;
    var before := Before(own.program, own.stack);
    var run :| IsPath(run, ops) && run[0] == a && run[|ops|] == b;
    RunSpares(run, ops, |ops|, pid, ToSet(before), kept);
    forall i | 0 <= i < |before| ensures Disposable(b.l, before[i], pid) {
      assert Disposable(a.l, before[i], pid);
      assert before[i] in ToSet(before) && Fixed(a.l, before[i]);
    }
    assert Fixed(a.l, HeadOf(own.task));
  }

  // ----- The start and the end -----

  /** A paging structure just recorded has each part once. */
  lemma SpawnTidy(st: World, l: Ledger, pid: nat, dir: PageAddr, chunk: PageAddr, images: set<nat>,
                  st': World, l': Ledger)
    requires SpawnNext(st, l, pid, dir, chunk, st', l')
    requires forall h :: h in l.owner && BelongsTo(l.owner[h], pid) ==> l.owner[h].Image? && h in images
    ensures Tidy(st', l', pid, images)
  {
    hide TableAddr; hide OwnsPage; hide Built; hide Singles;
    var bs := PtBlocks(st'.mem, dir, chunk);
    forall b | b in bs ensures PartAt(st'.mem, dir, chunk, pid, b, l'.owner[b]) {
      PartRead(st'.mem, dir, chunk, pid, b);
    }
    forall h | h in l'.owner && BelongsTo(l'.owner[h], pid)
      ensures EntryTidy(st'.procs[pid].allocs, images, h, l'.owner[h])
    {
      if h in bs { assert PartAt(st'.mem, dir, chunk, pid, h, l'.owner[h]); }
    }
    forall h, g | h in l'.owner && g in l'.owner && l'.owner[h] == l'.owner[g]
                  && BelongsTo(l'.owner[h], pid) && OfStructure(l'.owner[h]) ensures h == g {
      assert PartAt(st'.mem, dir, chunk, pid, h, l'.owner[h]) && PartAt(st'.mem, dir, chunk, pid, g, l'.owner[g]);
    }
  }

  /** Block b is the part of the structure that o names. */
  ghost predicate PartAt(m: Mem, dir: PageAddr, chunk: PageAddr, pid: nat, b: nat, o: Owner) {
    && b < HEAP_BLOCKS && OfStructure(o)
    && (o.ChunkOf? ==> BlockAddr(b) == chunk)
    && (o.DirOf? ==> BlockAddr(b) == dir)
    && (o.TableOf? ==> o.i < TABLE_LEN && BlockAddr(b) == TableAddr(m, dir, o.i))
  }

  lemma PartRead(m: Mem, dir: PageAddr, chunk: PageAddr, pid: nat, b: nat)
    requires b in PtBlocks(m, dir, chunk)
    ensures PartAt(m, dir, chunk, pid, b, PtOwners(m, dir, chunk, pid)[b])
  {
    hide TableAddr;
    assert PtPage(m, dir, chunk, BlockAddr(b));
    assert PtOwners(m, dir, chunk, pid)[b] == PtOwner(m, dir, chunk, pid, BlockAddr(b));
  }

  function KernelOwners(hs: set<nat>): map<nat, Owner> {
    map h | h in hs :: KernelData
  }

  /** The record l is l0 and, apart from it, the kept blocks of the kernel's and mine. */
  ghost predicate Tracks(l0: Ledger, l: Ledger, kept: Live, mine: Ledger) {
    && l0.live.Keys == l0.owner.Keys && mine.live.Keys == mine.owner.Keys
    && l0.live.Keys !! kept.Keys && l0.live.Keys !! mine.live.Keys && kept.Keys !! mine.live.Keys
    && l.live == l0.live + kept + mine.live && l.owner == l0.owner + KernelOwners(kept.Keys) + mine.owner
  }

  lemma TracksNothing(l: Ledger)
    requires l.live.Keys == l.owner.Keys
    ensures Tracks(l, l, map[], Ledger(map[], map[]))
  {
  }

  lemma AddMiddle<T>(a: map<nat, T>, b: map<nat, T>, c: map<nat, T>, h: nat, x: T)
    requires h !in c
    ensures (a + b + c)[h := x] == a + b[h := x] + c
  {
  }

  lemma AddLast<T>(a: map<nat, T>, b: map<nat, T>, c: map<nat, T>, h: nat, x: T)
    ensures (a + b + c)[h := x] == a + b + c[h := x]
  {
  }

  lemma DropMiddle<T>(a: map<nat, T>, b: map<nat, T>, c: map<nat, T>, h: nat)
    requires h !in a && h !in c
    ensures a + b + c - {h} == a + (b - {h}) + c
  {
  }

  lemma KernelOwnersMore(kept: Live, h: nat, n: nat)
    ensures KernelOwners(kept.Keys)[h := KernelData] == KernelOwners(kept[h := n].Keys)
    ensures KernelOwners(kept.Keys) - {h} == KernelOwners((kept - {h}).Keys)
  {
    assert kept[h := n].Keys == kept.Keys + {h} && (kept - {h}).Keys == kept.Keys - {h};
  }

  lemma TracksKept(l0: Ledger, l: Ledger, kept: Live, mine: Ledger, h: nat, n: nat)
    requires Tracks(l0, l, kept, mine) && h !in l.live
    ensures Tracks(l0, Add(l, h, n, KernelData), kept[h := n], mine) && h !in kept && h !in mine.live
  {
    hide KernelOwners;
    AddMiddle(l0.live, kept, mine.live, h, n);
    AddMiddle(l0.owner, KernelOwners(kept.Keys), mine.owner, h, KernelData);
    KernelOwnersMore(kept, h, n);
  }

  lemma TracksMine(l0: Ledger, l: Ledger, kept: Live, mine: Ledger, h: nat, n: nat, o: Owner)
    requires Tracks(l0, l, kept, mine) && h !in l.live
    ensures Tracks(l0, Add(l, h, n, o), kept, Add(mine, h, n, o)) && h !in kept && h !in mine.live
  {
    hide KernelOwners;
    AddLast(l0.live, kept, mine.live, h, n);
    AddLast(l0.owner, KernelOwners(kept.Keys), mine.owner, h, o);
  }

  lemma TracksFree(l0: Ledger, l: Ledger, kept: Live, mine: Ledger, h: nat)
    requires Tracks(l0, l, kept, mine) && h in kept
    ensures Tracks(l0, Remove(l, {h}), kept - {h}, mine) && Owns(l, h, KernelData)
  {
    DropMiddle(l0.live, kept, mine.live, h);
    DropMiddle(l0.owner, KernelOwners(kept.Keys), mine.owner, h);
    KernelOwnersMore(kept, h, 0);
  }

  /** The record l' has all of l, and otherwise only what belongs to pid. */
  ghost predicate Grown(l: Ledger, l': Ledger, pid: nat) {
    && (forall h :: h in l.live && h in l.owner ==> Owns(l', h, l.owner[h]) && l'.live[h] == l.live[h])
    && (forall h :: h in l'.owner ==> h in l.owner || BelongsTo(l'.owner[h], pid))
  }

  /** The steps that create a process only add entries, which belong to it. */
  lemma SpawnAdds(st: World, l: Ledger, pid: nat, dir: PageAddr, chunk: PageAddr, st': World, l': Ledger)
    requires SpawnNext(st, l, pid, dir, chunk, st', l')
    requires Inv(st, l)
    ensures Grown(l, l', pid)
  {
    hide TableAddr; hide OwnsPage; hide MapBuilt; hide Resident; hide ProcOk;
    forall b | b in PtBlocks(st'.mem, dir, chunk)
      ensures b !in l.live && BelongsTo(PtOwners(st'.mem, dir, chunk, pid)[b], pid)
    {
      assert BlockOf(BlockAddr(b)) == b;
      FreshIsNew(st.table, l.live, b);
    }
  }

  /** Where the program's bytes are. */
  function ImagePointer(own: Belongings): Word {
    match own.program
    case Binary(ptr) => ptr
    case Elf(memory, _) => memory
    case Unknown => 0
  }

  /** What a process is started with, before its directory is made. */
  ghost predicate Equipped(mine: Ledger, pid: nat, own: Belongings) {
    && own.InHeap() && !own.program.Unknown? && Disposables(mine, Before(own.program, own.stack), pid)
    && Owns(mine, HeadOf(own.stack), Image(pid))
    && HeapPointer(ImagePointer(own)) && Owns(mine, HeadOf(ImagePointer(own)), Image(pid))
    && Owns(mine, HeadOf(own.task), KernelData) && HeadOf(own.task) !in Before(own.program, own.stack)
    && forall h :: h in mine.owner ==> h in Before(own.program, own.stack) || h == HeadOf(own.task)
  }

  lemma Launched(l0: Ledger, st: World, l: Ledger, kept: Live, mine: Ledger, pid: nat, own: Belongings,
                 dir: PageAddr, chunk: PageAddr, st': World, l': Ledger)
    requires Tracks(l0, l, kept, mine) && Equipped(mine, pid, own) && Gone(l0, pid)
    requires SpawnNext(st, l, pid, dir, chunk, st', l')
    requires Inv(st, l)
    ensures Recorded(l', pid, own) && Tidy(st', l', pid, ToSet(Before(own.program, own.stack)))
    ensures Started(l0, l', pid, kept, ToSet(Before(own.program, own.stack)) + {HeadOf(own.task)})
    ensures MineKept(mine, l')
  {
    hide Inv; hide SpawnNext; hide Tidy; hide Started; hide Recorded; hide Tracks; hide Equipped; hide Grown; hide Gone;
    hide ToSet; hide Before; hide MineKept;
    SpawnAdds(st, l, pid, dir, chunk, st', l');
    InBefore(mine, pid, own);
    TracksMineKept(l0, l, kept, mine, l', pid);
    LaunchedRecorded(mine, pid, own, l');
    LaunchedStarted(l0, l, kept, mine, pid, own, l');
    ImagesOnly(l0, l, kept, mine, pid, own);
    SpawnTidy(st, l, pid, dir, chunk, ToSet(Before(own.program, own.stack)), st', l');
  }

  ghost predicate MineKept(mine: Ledger, l': Ledger) {
    && mine.live.Keys == mine.owner.Keys
    && forall h :: h in mine.live ==> Owns(l', h, mine.owner[h]) && l'.live[h] == mine.live[h]
  }

  lemma TracksMineKept(l0: Ledger, l: Ledger, kept: Live, mine: Ledger, l': Ledger, pid: nat)
    requires Tracks(l0, l, kept, mine) && Grown(l, l', pid)
    ensures MineKept(mine, l')
  {
    forall h | h in mine.live ensures Owns(l', h, mine.owner[h]) && l'.live[h] == mine.live[h] {
      assert h in l.live && h in l.owner && l.owner[h] == mine.owner[h];
    }
  }

  lemma LaunchedRecorded(mine: Ledger, pid: nat, own: Belongings, l': Ledger)
    requires Equipped(mine, pid, own) && MineKept(mine, l')
    ensures Recorded(l', pid, own)
  {
    var before := Before(own.program, own.stack);
    forall i | 0 <= i < |before| ensures Disposable(l', before[i], pid) {
      assert Disposable(mine, before[i], pid) && before[i] in mine.live;
    }
  }

  lemma InBefore(mine: Ledger, pid: nat, own: Belongings)
    requires Equipped(mine, pid, own)
    ensures own.InHeap()
    ensures forall h :: h in ToSet(Before(own.program, own.stack)) ==> Disposable(mine, h, pid)
    ensures forall h :: h in Before(own.program, own.stack) <==> h in ToSet(Before(own.program, own.stack))
  {
  }

  lemma OnlyOwn(mine: Ledger, pid: nat, own: Belongings)
    requires Equipped(mine, pid, own)
    ensures forall h :: h in ToSet(Before(own.program, own.stack)) + {HeadOf(own.task)} ==> h in mine.owner
    ensures forall h :: h in mine.owner ==> h in ToSet(Before(own.program, own.stack)) + {HeadOf(own.task)}
  {
  }

  lemma LaunchedStarted(l0: Ledger, l: Ledger, kept: Live, mine: Ledger, pid: nat, own: Belongings, l': Ledger)
    requires Tracks(l0, l, kept, mine) && Equipped(mine, pid, own) && Grown(l, l', pid)
    ensures Started(l0, l', pid, kept, ToSet(Before(own.program, own.stack)) + {HeadOf(own.task)})
  {
    hide ToSet; hide Before; hide Disposables; hide Equipped;
    InBefore(mine, pid, own);
    OnlyOwn(mine, pid, own);
    forall h | h in l0.live && h in l0.owner ensures Owns(l', h, l0.owner[h]) && l'.live[h] == l0.live[h] {
      assert h in l.live && h !in mine.live && h !in kept;
    }
    forall h | h in kept ensures Owns(l', h, KernelData) && l'.live[h] == kept[h] {
      assert h in l.live && h !in mine.live && h in l.owner;
    }
  }

  lemma ImagesOnly(l0: Ledger, l: Ledger, kept: Live, mine: Ledger, pid: nat, own: Belongings)
    requires Tracks(l0, l, kept, mine) && Equipped(mine, pid, own) && Gone(l0, pid)
    ensures forall h :: h in l.owner && BelongsTo(l.owner[h], pid) ==>
              l.owner[h].Image? && h in ToSet(Before(own.program, own.stack))
  {
    hide ToSet; hide Before;
    InBefore(mine, pid, own);
  }

  lemma EquippedBinary(pid: nat, ptr: Word, size: nat, stack: Word, stackSize: nat, task: Word, taskSize: nat,
                       mine: Ledger)
    requires HeapPointer(ptr) && HeapPointer(stack) && HeapPointer(task)
    requires var m1 := Add(Ledger(map[], map[]), HeadOf(ptr), size, Image(pid));
             var m2 := Add(m1, HeadOf(stack), stackSize, Image(pid));
             && HeadOf(stack) !in m1.live && HeadOf(task) !in m2.live
                 && mine == Add(m2, HeadOf(task), taskSize, KernelData)
    ensures Equipped(mine, pid, Belongings(Binary(ptr), stack, task))
    ensures HeadOf(ptr) in mine.live && mine.live[HeadOf(ptr)] == size
    ensures HeadOf(stack) in mine.live && mine.live[HeadOf(stack)] == stackSize
  {
  }

  lemma EquippedElf(pid: nat, file: Word, record: nat, ptr: Word, size: nat, stack: Word, stackSize: nat,
                    task: Word, taskSize: nat, mine: Ledger)
    requires HeapPointer(file) && HeapPointer(ptr) && HeapPointer(stack) && HeapPointer(task)
    requires var m1 := Add(Ledger(map[], map[]), HeadOf(file), record, KernelData);
             var m2 := Add(m1, HeadOf(ptr), size, Image(pid));
             var m3 := Add(m2, HeadOf(stack), stackSize, Image(pid));
             && HeadOf(ptr) !in m1.live && HeadOf(stack) !in m2.live
             && HeadOf(task) !in m3.live && mine == Add(m3, HeadOf(task), taskSize, KernelData)
    ensures Equipped(mine, pid, Belongings(Elf(ptr, file), stack, task))
    ensures HeadOf(ptr) in mine.live && mine.live[HeadOf(ptr)] == size
    ensures HeadOf(stack) in mine.live && mine.live[HeadOf(stack)] == stackSize
  {
  }

  // ----- What starting a process leaves taken -----

  /** The kept blocks, and single blocks besides. */
  function WithSingles(kept: Live, hs: set<nat>): Live {
    kept + Singles(hs)
  }

  /** The blocks that stay taken: the process's own; the path list of the file that elf_load opened; and for a flat
      binary, which elf_load refuses first, its record and its copy of the file, and the path list of the second
      opening. */
  datatype Leak = Leak(block: nat, record: nat, first: set<nat>, copy: nat, second: set<nat>)
  {
    /** Head blocks and lengths, in the order in which they are taken. */
    function Lengths(flat: bool, process: nat, recordBlocks: nat, image: nat): Live {
      if flat then
        WithSingles(WithSingles(map[block := process][record := recordBlocks], first)[copy := image], second)
      else WithSingles(map[block := process], first)
    }

    /** They are distinct, and each path list has a root, and a buffer and a node for each part. */
    predicate Counted(flat: bool, parts: nat) {
      && block !in first && |first| == 2 * parts + 1
      && (flat ==>
            && record != block && record !in first && copy !in first + {block, record}
            && second !! first + {block, record, copy} && |second| == 2 * parts + 1)
    }
  }

  /** Each block of a flat binary's is taken while the ones before it are. */
  lemma FlatKeys(x: Leak, process: nat, recordBlocks: nat, image: nat)
    ensures map[x.block := process].Keys == {x.block}
    ensures map[x.block := process][x.record := recordBlocks].Keys == {x.block, x.record}
    ensures WithSingles(map[x.block := process][x.record := recordBlocks], x.first).Keys ==
              x.first + {x.block, x.record}
    ensures WithSingles(map[x.block := process][x.record := recordBlocks], x.first)[x.copy := image].Keys ==
            x.first + {x.block, x.record, x.copy}
  {
  }

  /** What an open file takes and gives back is gone again; its path list and what was loaded stay. */
  lemma ClosedAgain(kept: Live, paths: set<nat>, open: set<nat>, h: nat, n: nat)
    requires open !! kept.Keys && open !! paths && h !in WithSingles(WithSingles(kept, paths), open)
    ensures open <= WithSingles(WithSingles(kept, paths), open)[h := n].Keys && h !in paths && h !in kept
    ensures WithSingles(WithSingles(kept, paths), open)[h := n] - open == WithSingles(kept, paths)[h := n]
  {
  }

  lemma JustClosed(kept: Live, paths: set<nat>, open: set<nat>)
    requires open !! kept.Keys && open !! paths
    ensures open <= WithSingles(WithSingles(kept, paths), open).Keys
    ensures WithSingles(WithSingles(kept, paths), open) - open == WithSingles(kept, paths)
  {
  }

  lemma SinglesNone(kept: Live)
    ensures WithSingles(kept, {}) == kept
  {
  }

  lemma SinglesOne(kept: Live, hs: set<nat>, h: nat)
    ensures WithSingles(kept, hs)[h := 1] == WithSingles(kept, hs + {h})
  {
  }

  /** The record l has all of l0, and otherwise only what belongs to pid, the kept blocks, and others named. */
  ghost predicate Started(l0: Ledger, l: Ledger, pid: nat, kept: Live, others: set<nat>) {
    && (forall h :: h in kept ==> h !in l0.live && Owns(l, h, KernelData) && l.live[h] == kept[h] && h !in others)
    && (forall h :: h in l0.live && h in l0.owner ==> Owns(l, h, l0.owner[h]) && l.live[h] == l0.live[h])
    && (forall h :: h in others ==> h !in l0.live)
    && forall h :: h in l.owner ==> h in l0.owner || BelongsTo(l.owner[h], pid) || h in kept || h in others
  }

  /** The record with the kept blocks. */
  ghost function WithKept(l: Ledger, kept: Live): Ledger {
    Ledger(l.live + kept, l.owner + KernelOwners(kept.Keys))
  }

  /** What is left of a process when it is gone: the blocks that nothing frees. */
  lemma OnlyKeptLeft(l0: Ledger, l: Ledger, pid: nat, kept: Live, others: set<nat>, l': Ledger)
    requires Started(l0, l, pid, kept, others) && Gone(l0, pid) && Gone(l', pid) && KeepsRest(l, l', pid, others)
    requires l0.live.Keys == l0.owner.Keys && l'.live.Keys == l'.owner.Keys
    requires forall h :: h in l'.owner ==> h in l.owner && l'.owner[h] == l.owner[h] && h !in others
    ensures l' == WithKept(l0, kept)
  {
    var want := WithKept(l0, kept);
    forall h | h in want.live ensures Owns(l', h, want.owner[h]) && l'.live[h] == want.live[h] {
      if h in kept {
        assert Owns(l, h, KernelData);
      } else {
        assert Owns(l, h, l0.owner[h]);
      }
    }
    forall h | h in l'.live ensures h in want.live {
      assert h in l.owner;
    }
    SameRecords(l', want);
  }

  lemma SameRecords(a: Ledger, b: Ledger)
    requires a.live.Keys == a.owner.Keys && b.live.Keys == b.owner.Keys
    requires forall h :: h in a.live ==> h in b.live
    requires forall h :: h in b.live ==> Owns(a, h, b.owner[h]) && a.live[h] == b.live[h]
    ensures a == b
  {
    assert a.live == b.live && a.owner == b.owner;
  }

  /** Taking and freeing data of its own, being loaded, and stores: what a process and the kernel do for it while it
      runs. */
  predicate OwnStep(op: Isolation.Op, pid: nat) {
    match op
    case Load(q, _) => q == pid
    case Malloc(q, _, _) => q == pid
    case Free(q, _) => q == pid
    case Store => true
    case _ => false
  }

  /** Only data of pid is added or removed. */
  ghost predicate OnlyData(l: Ledger, l': Ledger, pid: nat) {
    && (forall h :: h in l.live && h in l.owner && !(BelongsTo(l.owner[h], pid) && l.owner[h].Data?) ==>
          Owns(l', h, l.owner[h]) && l'.live[h] == l.live[h])
    && forall h :: h in l'.owner ==> (h in l.owner && l'.owner[h] == l.owner[h]) || BelongsTo(l'.owner[h], pid)
  }

  lemma MallocData(st: World, l: Ledger, size: Word, ptr: Word, pid: nat, st': World, l': Ledger)
    requires |st.table| == HEAP_BLOCKS && MallocNext(st, l, pid, size, ptr, st', l')
    requires Holds(st.table, l.live) && l.live.Keys == l.owner.Keys
    ensures OnlyData(l, l', pid)
  {
    hide MallocPost; hide FirstFit; hide MallocLedger; hide Safe;
    MallocFacts(st, l, pid, size, ptr, st', l');
    var s, slot := FirstFit(st.table, Blocks(size)), FindSlot(st.procs[pid].allocs, 0);
    if s >= 0 && slot < |st.procs[pid].allocs| {
      FreshIsNew(st.table, l.live, s);
    }
  }

  lemma FreeData(st: World, l: Ledger, ptr: Word, pid: nat, st': World, l': Ledger)
    requires FreeNext(st, l, pid, ptr, st', l')
    ensures OnlyData(l, l', pid)
  {
    hide Flat; hide SameTables; hide OnlyTables;
    var allocs := st.procs[pid].allocs;
    var slot := FindSlot(allocs, ptr);
    if slot < |allocs| {
      assert SlotOk(l, pid, slot, allocs[slot]);
    }
  }

  lemma OwnStepData(st: World, l: Ledger, op: Isolation.Op, pid: nat, st': World, l': Ledger)
    requires |st.table| == HEAP_BLOCKS && Next(st, l, op, st', l') && OwnStep(op, pid)
    requires Holds(st.table, l.live) && l.live.Keys == l.owner.Keys
    ensures OnlyData(l, l', pid)
  {
    hide OnlyData; hide MallocNext; hide FreeNext;
    match op
    case Load(q, ranges) => SameIsData(l, pid);
    case Malloc(q, size, ptr) => MallocData(st, l, size, ptr, pid, st', l');
    case Free(q, ptr) => FreeData(st, l, ptr, pid, st', l');
    case Store => SameIsData(l, pid);
  }

  lemma SameIsData(l: Ledger, pid: nat)
    ensures OnlyData(l, l, pid)
  {
  }

  lemma StartedStays(l0: Ledger, l: Ledger, pid: nat, kept: Live, others: set<nat>, l': Ledger)
    requires Started(l0, l, pid, kept, others) && OnlyData(l, l', pid) && Gone(l0, pid)
    requires l.live.Keys == l.owner.Keys
    ensures Started(l0, l', pid, kept, others)
  {
    forall h | h in kept ensures Owns(l', h, KernelData) && l'.live[h] == kept[h] {
      assert Owns(l, h, KernelData);
    }
    forall h | h in l0.live && h in l0.owner ensures Owns(l', h, l0.owner[h]) && l'.live[h] == l0.live[h] {
      assert Owns(l, h, l0.owner[h]);
    }
  }

  /** While only the process runs, the record is the one it was started from, its own entries, and the kept blocks. */
  lemma {:induction false} OwnRun(run: seq<Moment>, ops: seq<Isolation.Op>, n: nat, l0: Ledger, pid: nat, kept: Live,
                                  others: set<nat>)
    requires IsPath(run, ops) && n <= |ops| && Inv(run[0].st, run[0].l)
    requires Started(l0, run[0].l, pid, kept, others) && Gone(l0, pid)
    requires forall i :: 0 <= i < |ops| ==> OwnStep(ops[i], pid)
    ensures Inv(run[n].st, run[n].l) && Started(l0, run[n].l, pid, kept, others)
  {
    hide ProcOk; hide Next; hide Started; hide OwnStep; hide OnlyData; hide Gone;
    if n > 0 {
      OwnRun(run, ops, n - 1, l0, pid, kept, others);
      var a, b := run[n - 1], run[n];
      OwnStepData(a.st, a.l, ops[n - 1], pid, b.st, b.l);
      StartedStays(l0, a.l, pid, kept, others, b.l);
      NextKeeps(a.st, a.l, ops[n - 1], b.st, b.l);
    }
  }

  /** So when it exits after any steps of its own, everything that exit needs still holds. */
  lemma OwnLife(a: Moment, ops: seq<Isolation.Op>, b: Moment, l0: Ledger, pid: nat, own: Belongings, kept: Live)
    requires Leads(a, ops, b) && Inv(a.st, a.l) && Recorded(a.l, pid, own) && Gone(l0, pid)
    requires Tidy(a.st, a.l, pid, ToSet(Before(own.program, own.stack)))
    requires Started(l0, a.l, pid, kept, ToSet(Before(own.program, own.stack)) + {HeadOf(own.task)})
    requires forall i :: 0 <= i < |ops| ==> OwnStep(ops[i], pid)
    ensures Inv(b.st, b.l) && Recorded(b.l, pid, own) && Tidy(b.st, b.l, pid, ToSet(Before(own.program, own.stack)))
    ensures Started(l0, b.l, pid, kept, ToSet(Before(own.program, own.stack)) + {HeadOf(own.task)})
  {
    hide ProcOk; hide Next; hide Started; hide Tidy; hide Recorded; hide ToSet; hide Before; hide Gone;
    assert own.InHeap() by { RecordedInHeap(a.l, pid, own); }
    var others := ToSet(Before(own.program, own.stack)) + {HeadOf(own.task)};
    var run :| IsPath(run, ops) && run[0] == a && run[|ops|] == b;
    OwnRun(run, ops, |ops|, l0, pid, kept, others);
    LifeKeeps(a, ops, b, pid, own, others);
  }

  lemma RecordedInHeap(l: Ledger, pid: nat, own: Belongings)
    requires Recorded(l, pid, own)
    ensures own.InHeap()
  {
  }

  /** After the least fit of n blocks is taken, what was left of a longer run is still free. */
  lemma RoomLeft(t: seq<Entry>, n: nat, rest: nat)
    requires n >= 1 && HasFit(t, n + rest)
    ensures HasFit(t, n) && FirstFit(t, n) >= 0
    ensures HasFit(Marked(t, FirstFit(t, n), n), rest)
  {
    var s :| FreeRun(t, s, n + rest);
    assert FreeRun(t, s, n);
    var f := FirstFit(t, n);
    var u := Marked(t, f, n);
    var from := if f + n <= s then s else f + n;
    assert FreeRun(u, from, rest);
  }

  lemma RoomFor1026(t: seq<Entry>)
    requires HasFit(t, 1026)
    ensures |FreeBlocks(t)| >= 1026
  {
    var s: nat :| FreeRun(t, s, 1026);
    FreeCount(t, s, 1026);
  }

  lemma {:induction false} FreeCount(t: seq<Entry>, s: nat, n: nat)
    requires FreeRun(t, s, n)
    ensures |set b: nat | s <= b < s + n && b < |t| && t[b] == FREE| == n
    ensures (set b: nat | s <= b < s + n && b < |t| && t[b] == FREE) <= FreeBlocks(t)
    ensures |FreeBlocks(t)| >= n
  {
    var f := set b: nat | s <= b < s + n && b < |t| && t[b] == FREE;
    if n > 0 {
      FreeCount(t, s, n - 1);
      assert f == (set b: nat | s <= b < s + (n - 1) && b < |t| && t[b] == FREE) + {s + n - 1};
    } else {
      assert f == {};
    }
    SubsetCount(f, FreeBlocks(t));
  }

  lemma {:induction false} SubsetCount(a: set<nat>, b: set<nat>)
    requires a <= b
    ensures |a| <= |b|
  {
    assert b == a + (b - a);
  }

  /** The table u is t with the given chains in free blocks, and nothing else. */
  ghost predicate Adds(t: seq<Entry>, kept: Live, u: seq<Entry>) {
    && |u| == |t|
    && (forall h: nat, i :: Covers(kept, h, i) ==> i < |t| && t[i] == FREE && u[i] == ChainEntry(i - h, kept[h]))
    && (forall i :: 0 <= i < |t| && (forall h: nat :: !Covers(kept, h, i)) ==> u[i] == t[i])
  }

  lemma AddsKept(t: seq<Entry>, live: Live, kept: Live, u: seq<Entry>)
    requires Holds(t, live) && Holds(u, live + kept) && |u| == |t| && live.Keys !! kept.Keys
    ensures Adds(t, kept, u)
  {
    var all := live + kept;
    forall h: nat, i | Covers(kept, h, i) ensures i < |t| && t[i] == FREE && u[i] == ChainEntry(i - h, kept[h]) {
      assert Covers(all, h, i);
      if t[i] != FREE {
        var g :| Covers(live, g, i);
        assert Covers(all, g, i);
        LiveDisjoint(u, all, g, h, i);
        assert false;
      }
    }
    forall i | 0 <= i < |t| && forall h: nat :: !Covers(kept, h, i) ensures u[i] == t[i] {
      SameOutside(live, kept, t, u, i);
    }
  }

  // ----- How many blocks stay taken -----

  ghost predicate InChain(kept: Live, b: int) {
    exists h: nat :: Covers(kept, h, b)
  }

  /** The blocks below n of the chains in kept. */
  ghost function Taken(kept: Live, n: nat): set<nat> {
    set b: nat | b < n && InChain(kept, b)
  }

  /** The chains do not overlap, and end at or below n. */
  ghost predicate Apart(kept: Live, n: nat) {
    && (forall a: nat, b: nat, i: int :: Covers(kept, a, i) && Covers(kept, b, i) ==> a == b)
    && forall h: nat, i: int :: Covers(kept, h, i) ==> i < n
  }

  lemma AddsApart(t: seq<Entry>, kept: Live, u: seq<Entry>)
    requires Adds(t, kept, u)
    ensures Apart(kept, |t|)
  {
    forall a: nat, b: nat, i: int | Covers(kept, a, i) && Covers(kept, b, i) ensures a == b {
      if a < b {
        assert Covers(kept, a, b) && Covers(kept, b, b);
      } else if b < a {
        assert Covers(kept, b, a) && Covers(kept, a, a);
      }
    }
  }

  /** What the table lost are the blocks of the chains. */
  lemma LostBlocks(t: seq<Entry>, kept: Live, u: seq<Entry>)
    requires Adds(t, kept, u)
    ensures |FreeBlocks(t)| == |FreeBlocks(u)| + |Taken(kept, |t|)|
  {
    var taken := Taken(kept, |t|);
    forall b: nat | b < |t| ensures t[b] == FREE <==> u[b] == FREE || b in taken {
      if h :| Covers(kept, h, b) {
        assert b in taken;
      }
    }
    forall b | b in taken ensures u[b] != FREE {
      var h :| Covers(kept, h, b);
    }
    assert FreeBlocks(t) == FreeBlocks(u) + taken;
  }

  lemma Interval(h: nat, n: nat) returns (s: set<nat>)
    ensures |s| == n && forall b: nat :: b in s <==> h <= b < h + n
  {
    s := {};
    for i := 0 to n
      invariant |s| == i && forall b: nat :: b in s <==> h <= b < h + i
    {
      s := s + {h + i};
    }
  }

  lemma TakenChain(kept: Live, h: nat, n: nat, limit: nat)
    requires h !in kept && Apart(kept[h := n], limit)
    ensures Apart(kept, limit) && |Taken(kept[h := n], limit)| == |Taken(kept, limit)| + n
  {
    var more := kept[h := n];
    var s := Interval(h, n);
    forall g: nat, i: int ensures Covers(more, g, i) <==> Covers(kept, g, i) || (g == h && h <= i < h + n) {
    }
    forall b: nat ensures b in Taken(more, limit) <==> b in Taken(kept, limit) || b in s {
      if b in s { assert Covers(more, h, b); }
    }
    forall b | b in s ensures b !in Taken(kept, limit) {
      assert Covers(more, h, b);
    }
    assert Taken(more, limit) == Taken(kept, limit) + s;
  }

  lemma TakenSingles(kept: Live, hs: set<nat>, limit: nat)
    requires hs !! kept.Keys && Apart(WithSingles(kept, hs), limit)
    ensures Apart(kept, limit) && |Taken(WithSingles(kept, hs), limit)| == |Taken(kept, limit)| + |hs|
  {
    var more := WithSingles(kept, hs);
    forall g: nat, i: int ensures Covers(more, g, i) <==> Covers(kept, g, i) || (g in hs && i == g) {
    }
    forall b: nat ensures b in Taken(more, limit) <==> b in Taken(kept, limit) || b in hs {
      if b in hs { assert Covers(more, b, b); }
    }
    forall b | b in hs ensures b !in Taken(kept, limit) {
      assert Covers(more, b, b);
    }
    assert Taken(more, limit) == Taken(kept, limit) + hs;
  }

  lemma TakenNothing(limit: nat)
    ensures Taken(map[], limit) == {}
  {
  }

  /** What one life of a process costs in blocks: its own block and a path list; for a flat binary also the record, one
      more copy of the file and one more path list. */
  lemma LifeCosts(t: seq<Entry>, u: seq<Entry>, x: Leak, flat: bool, parts: nat, process: nat, record: nat, image: nat)
    requires x.Counted(flat, parts) && Adds(t, x.Lengths(flat, process, record, image), u)
    ensures |FreeBlocks(t)| == |FreeBlocks(u)| + process + (2 * parts + 1)
                               + if flat then record + image + (2 * parts + 1) else 0
  {
    hide Adds; hide Apart; hide Taken; hide WithSingles; hide FreeBlocks;
    var kept, n := x.Lengths(flat, process, record, image), |t|;
    var own: Live := map[x.block := process];
    AddsApart(t, kept, u);
    LostBlocks(t, kept, u);
    TakenNothing(n);
    assert own == map[][x.block := process];
    if flat {
      var two := own[x.record := record];
      var three := WithSingles(two, x.first);
      FlatKeys(x, process, record, image);
      TakenSingles(three[x.copy := image], x.second, n);
      TakenChain(three, x.copy, image, n);
      TakenSingles(two, x.first, n);
      TakenChain(own, x.record, record, n);
      TakenChain(map[], x.block, process, n);
    } else {
      TakenSingles(own, x.first, n);
      TakenChain(map[], x.block, process, n);
    }
  }

  lemma CoversEither(live: Live, kept: Live, h: nat, i: int)
    ensures Covers(live + kept, h, i) ==> Covers(live, h, i) || Covers(kept, h, i)
  {
  }

  lemma SameOutside(live: Live, kept: Live, t: seq<Entry>, u: seq<Entry>, i: nat)
    requires Holds(t, live) && Holds(u, live + kept) && |u| == |t| && live.Keys !! kept.Keys && i < |t|
    requires forall h: nat :: !Covers(kept, h, i)
    ensures u[i] == t[i]
  {
    var all := live + kept;
    if t[i] != FREE {
      var g :| Covers(live, g, i);
      assert Covers(all, g, i);
    } else if u[i] != FREE {
      var g :| Covers(all, g, i);
      CoversEither(live, kept, g, i);
      assert false;
    }
  }

  /** Freeing leaves no less room. */
  lemma {:induction false} FreedFrees(t: seq<Entry>, i: nat)
    ensures forall j :: 0 <= j < |t| ==> Freed(t, i)[j] == t[j] || Freed(t, i)[j] == FREE
    decreases |t| - i
  {
    if i < |t| && HasNext(t[i]) {
      FreedFrees(t[i := FREE], i + 1);
    }
  }

  lemma FreedRoom(t: seq<Entry>, i: nat, n: nat)
    requires HasFit(t, n)
    ensures HasFit(Freed(t, i), n)
  {
    var s :| FreeRun(t, s, n);
    FreedFrees(t, i);
    assert FreeRun(Freed(t, i), s, n);
  }

  lemma WithoutLeaves(l: Ledger, p: Proc, own: Belongings, m: Mem)
    requires own.InHeap()
    ensures var l' := Without(l, p, own, m);
            forall h :: h in l'.owner ==>
              h in l.owner && l'.owner[h] == l.owner[h]
                  && h !in ToSet(Before(own.program, own.stack)) + {HeadOf(own.task)}
  {
  }

  lemma TidySame(st: World, l: Ledger, pid: nat, images: set<nat>, st': World)
    requires Tidy(st, l, pid, images) && st'.procs == st.procs
    ensures Tidy(st', l, pid, images)
  {
  }

  lemma LiveInPool(st: World, l: Ledger, ptr: Word, size: Word)
    requires HeapPointer(ptr) && ptr % PAGE == 0 && 1 <= size <= WORD_LIMIT - BLOCK_SIZE
    requires HeadOf(ptr) in l.live && l.live[HeadOf(ptr)] == Blocks(size)
    requires Inv(st, l)
    ensures HeadOf(ptr) + Blocks(size) <= HEAP_BLOCKS && InPool(Allocation(ptr, size))
    ensures ptr == HEAP_BASE + HeadOf(ptr) * PAGE
  {
    hide AlignUpper; hide ProcOk;
    LiveEnds(st, l, HeadOf(ptr));
    InsidePool(ptr, HeadOf(ptr), Blocks(size), size);
  }

  lemma LiveEnds(st: World, l: Ledger, h: nat)
    requires h in l.live
    requires Inv(st, l)
    ensures h + l.live[h] <= HEAP_BLOCKS
  {
  }

  lemma InsidePool(ptr: Word, h: nat, n: nat, size: Word)
    requires HeapPointer(ptr) && ptr % PAGE == 0 && h == (ptr - HEAP_BASE) / BLOCK_SIZE && h + n <= HEAP_BLOCKS
    requires 1 <= size <= n * BLOCK_SIZE
    ensures ptr == HEAP_BASE + h * PAGE && InPool(Allocation(ptr, size))
  {
    assert (ptr - HEAP_BASE) % BLOCK_SIZE == 0;
  }
}
