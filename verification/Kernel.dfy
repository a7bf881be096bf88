/**
 kheap.c and paging.c on one machine: the kernel heap, physical memory, and the page
 directories that live in heap blocks.
 */
module Kernel {
  import opened Bits
  import opened Memory
  import opened BlockTable
  import opened KernelHeap
  import opened PageMap
  import opened Status

  function BlockAddr(b: nat): PageAddr
    requires b < HEAP_BLOCKS
  {
    HEAP_BASE + b * BLOCK_SIZE
  }

  /** Address a is the start of a block of the kernel heap. */
  predicate IsBlock(a: PageAddr) {
    HEAP_BASE <= a < HEAP_BASE + HEAP_SIZE
  }

  function BlockOf(a: PageAddr): (b: nat)
    requires IsBlock(a)
    ensures b < HEAP_BLOCKS && BlockAddr(b) == a
  {
    (a - HEAP_BASE) / BLOCK_SIZE
  }

  /** A request that the allocator answers soundly: nonzero, below the wrap-around of the size, and either
      fitting or refused because the last block is taken. */
  ghost predicate Safe(t: seq<Entry>, size: Word) {
    1 <= size <= WORD_LIMIT - BLOCK_SIZE && (HasFit(t, Blocks(size)) || LastTaken(t))
  }

  ghost function FreeBlocks(t: seq<Entry>): set<nat> {
    set b: nat | b < |t| && t[b] == FREE
  }

  lemma FreeBlockFits(t: seq<Entry>)
    requires FreeBlocks(t) != {}
    ensures HasFit(t, 1)
  {
    var b :| b in FreeBlocks(t);
    assert FreeRun(t, b, 1);
  }

  /** Nothing but tables of dir may differ. */
  ghost predicate OnlyTables(m: Mem, n: Mem, dir: PageAddr) {
    forall a: PageAddr :: a == dir || !OwnsPage(m, dir, a) ==> SamePage(m, n, a)
  }

  lemma OnlyTablesTrans(m: Mem, n: Mem, o: Mem, dir: PageAddr)
    requires OnlyTables(m, n, dir) && SameTables(m, n, dir) && OnlyTables(n, o, dir)
    ensures OnlyTables(m, o, dir)
  {
    SameTablesOk(m, n, dir);
    forall a: PageAddr | a == dir || !OwnsPage(m, dir, a) ensures SamePage(m, o, a) {
      assert SamePage(m, n, a) && SamePage(n, o, a);
    }
  }

  lemma SetTouchesTable(m: Mem, dir: PageAddr, p: nat, val: Word)
    requires DirOk(m, dir) && p < PAGES
    ensures OnlyTables(m, WriteWord(m, SlotAddr(m, dir, p), val), dir)
  {
    var table := TableAddr(m, dir, p / TABLE_LEN);
    assert OwnsPage(m, dir, table);
    forall a: PageAddr | a == dir || !OwnsPage(m, dir, a)
      ensures SamePage(m, WriteWord(m, SlotAddr(m, dir, p), val), a)
    {
      WriteElsewhere(m, SlotAddr(m, dir, p), val, table, a);
    }
  }

  /** Page a belongs to the paging structure: its chunk, its directory or one of its tables. */
  ghost predicate PtPage(m: Mem, dir: PageAddr, chunk: PageAddr, a: PageAddr) {
    a == chunk || OwnsPage(m, dir, a)
  }

  const SINGLE: Entry := TAKEN | IS_FIRST

  /** The structure (dir, chunk) occupies single heap blocks that are marked so in t. */
  ghost predicate Resident(t: seq<Entry>, m: Mem, dir: PageAddr, chunk: PageAddr) {
    && |t| == HEAP_BLOCKS
    && DirOk(m, dir) && !OwnsPage(m, dir, chunk) && ReadWord(m, chunk) == dir
    && forall a: PageAddr :: PtPage(m, dir, chunk, a) ==> IsBlock(a) && t[BlockOf(a)] == SINGLE
  }

  /** Every page maps to itself with the given flags. */
  ghost predicate IdentityMap(f: FlatMap, flags: Word) {
    forall p :: 0 <= p < PAGES ==> f[p] == Tag(p * PAGE, flags)
  }

  /** paging_new_4gb took 1026 free blocks, changed nothing else and built an identity map in them. */
  ghost predicate Built(t: seq<Entry>, m: Mem, flags: Word, t': seq<Entry>, m': Mem, dir: PageAddr, chunk: PageAddr) {
    && Resident(t', m', dir, chunk)
    && BlocksAdded(t, t', m', dir, chunk)
    && MapBuilt(m, flags, m', dir, chunk)
  }

  ghost predicate BlocksAdded(t: seq<Entry>, t': seq<Entry>, m': Mem, dir: PageAddr, chunk: PageAddr) {
    && |t| == |t'| == HEAP_BLOCKS
    && (forall a: PageAddr :: PtPage(m', dir, chunk, a) ==> IsBlock(a) && t[BlockOf(a)] == FREE)
    && (forall b :: 0 <= b < HEAP_BLOCKS && !PtPage(m', dir, chunk, BlockAddr(b)) ==> t'[b] == t[b])
  }

  ghost predicate MapBuilt(m: Mem, flags: Word, m': Mem, dir: PageAddr, chunk: PageAddr) {
    && (forall a: PageAddr :: !PtPage(m', dir, chunk, a) ==> SamePage(m, m', a))
    && (forall i :: 0 <= i < TABLE_LEN ==>
          ReadWord(m', dir + 4 * i) == Tag(Tag(TableAddr(m', dir, i), flags), WRITEABLE))
    && IdentityMap(Flat(m', dir), flags)
  }

  lemma BuiltDirectory(t: seq<Entry>, m: Mem, flags: Word, t': seq<Entry>, m': Mem, dir: PageAddr, chunk: PageAddr)
    requires Built(t, m, flags, t', m', dir, chunk)
    ensures ReadWord(m', chunk) == dir
  {
  }

  /** paging_free_4gb freed the structure's blocks and no others. */
  ghost predicate Released(t: seq<Entry>, m: Mem, dir: PageAddr, chunk: PageAddr, t': seq<Entry>) {
    && |t| == |t'| == HEAP_BLOCKS
    && forall b :: 0 <= b < HEAP_BLOCKS ==> t'[b] == if PtPage(m, dir, chunk, BlockAddr(b)) then FREE else t[b]
  }

  lemma {:induction false} OrAssociative(a: nat, b: nat, c: nat)
    ensures BitOr(BitOr(a, b), c) == BitOr(a, BitOr(b, c))
    decreases a + b + c
  {
    if a + b + c > 0 {
      OrAssociative(a / 2, b / 2, c / 2);
    }
  }

  lemma {:induction false} OrComponents(a: nat, b: nat)
    ensures BitOr(a, b) == 0 <==> a == 0 && b == 0
    decreases a + b
  {
    if a + b > 0 { OrComponents(a / 2, b / 2); }
  }

  lemma TwiceTagged(table: PageAddr, flags: Word, more: Word)
    requires flags < 256 && more < 256
    ensures BitOr(flags, more) < 256
    ensures Tag(Tag(table, flags), more) == Tag(table, BitOr(flags, more))
  {
    hide Tag;
    assert BitOr(flags, more) < 256 by { assert Pow2(8) == 256; OrBounded(flags, more, 8); }
    OrAssociative(table, flags, more);
    TagIsBitOr(table, flags);
    TagIsBitOr(Tag(table, flags), more);
    TagIsBitOr(table, BitOr(flags, more));
  }

  lemma MaskTagged(table: PageAddr, flags: Word)
    requires flags < 4096
    ensures Mask(Tag(table, flags)) == table
  {
    PageMultiple(table);
    ModUnique(table + flags, 4096, table / 4096, flags);
  }

  /** A directory entry `entry | flags | PAGING_IS_WRITEABLE` gives its table back when masked. */
  lemma MaskRecoversTable(table: PageAddr, flags: Word)
    requires flags < 256
    ensures Mask(Tag(Tag(table, flags), WRITEABLE)) == table
  {
    hide Tag; hide Mask;
    TwiceTagged(table, flags, WRITEABLE);
    MaskTagged(table, BitOr(flags, WRITEABLE));
  }

  /** n is m with count pages mapped. */
  ghost predicate RangeDone(m: Mem, n: Mem, dir: PageAddr, page: nat, phys: PageAddr, count: nat, flags: Word)
    requires phys + count * PAGE <= WORD_LIMIT
  {
    && SameTables(m, n, dir) && OnlyTables(m, n, dir)
    && Flat(n, dir) == Mapped(Flat(m, dir), page, phys, count, flags)
  }

  lemma RangeStep(m: Mem, n: Mem, o: Mem, dir: PageAddr, page: nat, phys: PageAddr, i: nat, flags: Word)
    requires i < PAGES && phys + (i + 1) * PAGE <= WORD_LIMIT
    requires RangeDone(m, n, dir, page, phys, i, flags)
    requires SameTables(n, o, dir) && OnlyTables(n, o, dir)
    requires Flat(o, dir) == Flat(n, dir)[(page + i) % PAGES := Tag(phys + i * PAGE, flags)]
    ensures RangeDone(m, o, dir, page, phys, i + 1, flags)
  {
    OnlyTablesTrans(m, n, o, dir);
    MappedExtend(Flat(m, dir), page, phys, i, flags);
  }

  // ----- Building a directory, one table at a time -----

  /** dir and tabs were free single blocks of t and are the only blocks that t' adds. */
  ghost predicate BlocksTaken(t: seq<Entry>, t': seq<Entry>, dir: PageAddr, tabs: seq<PageAddr>) {
    && |t| == |t'| == HEAP_BLOCKS
    && IsBlock(dir) && t[BlockOf(dir)] == FREE
    && (forall k :: 0 <= k < |tabs| ==> IsBlock(tabs[k]) && t[BlockOf(tabs[k])] == FREE && tabs[k] != dir)
    && (forall k, l :: 0 <= k < l < |tabs| ==> tabs[k] != tabs[l])
    && (forall b :: 0 <= b < HEAP_BLOCKS ==>
          t'[b] == if BlockAddr(b) == dir || BlockAddr(b) in tabs then SINGLE else t[b])
  }

  lemma NoTablesYet(t: seq<Entry>, t1: seq<Entry>, m: Mem, m1: Mem, flags: Word, dir: PageAddr)
    requires |t| == HEAP_BLOCKS && IsBlock(dir) && t[BlockOf(dir)] == FREE && t1 == t[BlockOf(dir) := SINGLE]
    requires forall a: PageAddr :: a != dir ==> SamePage(m, m1, a)
    ensures BlocksTaken(t, t1, dir, []) && TablesFilled(m, m1, flags, dir, [])
  {
    assert BlockAddr(BlockOf(dir)) == dir;
  }

  lemma BlocksExtend(t: seq<Entry>, t': seq<Entry>, dir: PageAddr, tabs: seq<PageAddr>, entry: PageAddr)
    requires BlocksTaken(t, t', dir, tabs) && IsBlock(entry) && t'[BlockOf(entry)] == FREE
    ensures BlocksTaken(t, t'[BlockOf(entry) := SINGLE], dir, tabs + [entry])
  {
    assert BlockAddr(BlockOf(entry)) == entry;
    assert entry !in tabs && entry != dir;
  }

  /** The identity frames of table k. */
  ghost predicate Filled(m: Mem, table: PageAddr, k: nat, flags: Word)
    requires k < TABLE_LEN
  {
    forall j :: 0 <= j < TABLE_LEN ==> ReadWord(m, table + 4 * j) == Tag((k * TABLE_LEN + j) * PAGE, flags)
  }

  ghost predicate TablesFilled(m: Mem, m': Mem, flags: Word, dir: PageAddr, tabs: seq<PageAddr>) {
    && |tabs| <= TABLE_LEN
    && (forall a: PageAddr :: a != dir && a !in tabs ==> SamePage(m, m', a))
    && (forall k :: 0 <= k < |tabs| ==> ReadWord(m', dir + 4 * k) == Tag(Tag(tabs[k], flags), WRITEABLE))
    && (forall k :: 0 <= k < |tabs| ==> Filled(m', tabs[k], k, flags))
  }

  lemma FilledSame(m: Mem, n: Mem, table: PageAddr, k: nat, flags: Word)
    requires k < TABLE_LEN && Filled(m, table, k, flags) && SamePage(m, n, table)
    ensures Filled(n, table, k, flags)
  {
    forall j | 0 <= j < TABLE_LEN ensures ReadWord(n, table + 4 * j) == ReadWord(m, table + 4 * j) {
      ReadSame(m, n, table, j);
    }
  }

  lemma TabsApart(t: seq<Entry>, t': seq<Entry>, dir: PageAddr, tabs: seq<PageAddr>, entry: PageAddr)
    requires BlocksTaken(t, t', dir, tabs) && IsBlock(entry) && t'[BlockOf(entry)] == FREE
    ensures entry != dir && entry !in tabs && dir !in tabs
  {
    assert BlockAddr(BlockOf(entry)) == entry;
  }

  lemma TablesExtend(m: Mem, m1: Mem, flags: Word, dir: PageAddr, tabs: seq<PageAddr>, entry: PageAddr, m3: Mem)
    requires TablesFilled(m, m1, flags, dir, tabs) && |tabs| < TABLE_LEN
    requires entry != dir && entry !in tabs && dir !in tabs
    requires forall a: PageAddr :: a != entry ==> SamePage(m1, m3, a)
    requires Filled(m3, entry, |tabs|, flags)
    ensures TablesFilled(m, WriteWord(m3, dir + 4 * |tabs|, Tag(Tag(entry, flags), WRITEABLE)), flags, dir,
              tabs + [entry])
  {
    hide ReadWord; hide WriteWord; hide Tag;
    var i, val, tabs' := |tabs|, Tag(Tag(entry, flags), WRITEABLE), tabs + [entry];
    var m4 := WriteWord(m3, dir + 4 * i, val);
    forall a: PageAddr | a != dir && a !in tabs' ensures SamePage(m, m4, a) {
      assert entry in tabs' && (a in tabs ==> a in tabs');
      WriteElsewhere(m3, dir + 4 * i, val, dir, a);
      assert SamePage(m, m1, a) && SamePage(m1, m3, a);
    }
    forall k | 0 <= k < i + 1 ensures ReadWord(m4, dir + 4 * k) == Tag(Tag(tabs'[k], flags), WRITEABLE) {
      if k < i {
        ReadSame(m1, m3, dir, k);
        WriteOtherWord(m3, dir, i, val, k);
      } else {
        ReadBack(m3, dir + 4 * i, val);
      }
    }
    forall k | 0 <= k < i + 1 ensures Filled(m4, tabs'[k], k, flags) {
      FilledAfterWrite(m1, m3, flags, dir, tabs, entry, i, val, k);
    }
  }

  lemma FilledAfterWrite(m1: Mem, m3: Mem, flags: Word, dir: PageAddr, tabs: seq<PageAddr>, entry: PageAddr,
                         i: nat, val: Word, k: nat)
    requires |tabs| == i < TABLE_LEN && k <= i
    requires entry != dir && entry !in tabs && dir !in tabs
    requires forall l :: 0 <= l < i ==> Filled(m1, tabs[l], l, flags)
    requires forall a: PageAddr :: a != entry ==> SamePage(m1, m3, a)
    requires Filled(m3, entry, i, flags)
    ensures Filled(WriteWord(m3, dir + 4 * i, val), (tabs + [entry])[k], k, flags)
  {
    var table := (tabs + [entry])[k];
    if k < i {
      assert tabs[k] in tabs;
      FilledSame(m1, m3, table, k, flags);
    }
    WriteElsewhere(m3, dir + 4 * i, val, dir, table);
    FilledSame(m3, WriteWord(m3, dir + 4 * i, val), table, k, flags);
  }

  lemma ChunkDone(t: seq<Entry>, m: Mem, flags: Word, t1: seq<Entry>, m1: Mem, dir: PageAddr, tabs: seq<PageAddr>,
                  chunk: PageAddr, m2: Mem)
    requires flags < 256 && |tabs| == TABLE_LEN
    requires BlocksTaken(t, t1, dir, tabs) && TablesFilled(m, m1, flags, dir, tabs)
    requires IsBlock(chunk) && t1[BlockOf(chunk)] == FREE
    requires forall a: PageAddr :: a != chunk ==> SamePage(m1, m2, a)
    ensures Built(t, m, flags, t1[BlockOf(chunk) := SINGLE], WriteWord(m2, chunk, dir), dir, chunk)
  {
    var m' := WriteWord(m2, chunk, dir);
    assert BlockAddr(BlockOf(chunk)) == chunk && chunk != dir && chunk !in tabs;
    ReadBack(m2, chunk, dir);
    forall a: PageAddr | a != chunk ensures SamePage(m1, m', a) {
      WriteElsewhere(m2, chunk, dir, chunk, a);
      assert SamePage(m1, m2, a);
    }
    TablesAre(m1, m', flags, dir, tabs);
    BlocksDone(t, t1, m', dir, tabs, chunk);
    MapDone(m, m1, flags, m', dir, tabs, chunk);
  }

  lemma BlocksDone(t: seq<Entry>, t1: seq<Entry>, m': Mem, dir: PageAddr, tabs: seq<PageAddr>, chunk: PageAddr)
    requires |tabs| == TABLE_LEN && BlocksTaken(t, t1, dir, tabs)
    requires IsBlock(chunk) && t1[BlockOf(chunk)] == FREE && chunk != dir && chunk !in tabs
    requires forall k :: 0 <= k < TABLE_LEN ==> TableAddr(m', dir, k) == tabs[k]
    requires forall a: PageAddr :: OwnsPage(m', dir, a) <==> a == dir || a in tabs
    requires ReadWord(m', chunk) == dir
    ensures Resident(t1[BlockOf(chunk) := SINGLE], m', dir, chunk)
    ensures BlocksAdded(t, t1[BlockOf(chunk) := SINGLE], m', dir, chunk)
  {
    forall a: PageAddr | PtPage(m', dir, chunk, a)
      ensures IsBlock(a) && t[BlockOf(a)] == FREE && t1[BlockOf(chunk) := SINGLE][BlockOf(a)] == SINGLE
    {
      assert BlockAddr(BlockOf(chunk)) == chunk;
      assert IsBlock(a) && BlockAddr(BlockOf(a)) == a;
    }
  }

  lemma MapDone(m: Mem, m1: Mem, flags: Word, m': Mem, dir: PageAddr, tabs: seq<PageAddr>, chunk: PageAddr)
    requires |tabs| == TABLE_LEN && TablesFilled(m, m1, flags, dir, tabs) && chunk !in tabs && chunk != dir
    requires forall a: PageAddr :: a != chunk ==> SamePage(m1, m', a)
    requires forall k :: 0 <= k < TABLE_LEN ==>
              ReadWord(m', dir + 4 * k) == Tag(Tag(tabs[k], flags), WRITEABLE) && TableAddr(m', dir, k) == tabs[k]
    requires forall a: PageAddr :: OwnsPage(m', dir, a) <==> a == dir || a in tabs
    ensures MapBuilt(m, flags, m', dir, chunk)
  {
    forall a: PageAddr | !PtPage(m', dir, chunk, a) ensures SamePage(m, m', a) {
      assert SamePage(m, m1, a) && SamePage(m1, m', a);
    }
    forall p | 0 <= p < PAGES ensures EntryOf(m', dir, p) == Tag(p * PAGE, flags) {
      var k := p / TABLE_LEN;
      assert tabs[k] in tabs;
      FilledSame(m1, m', tabs[k], k, flags);
      FilledEntry(m', flags, dir, p);
    }
  }

  lemma FilledEntry(m: Mem, flags: Word, dir: PageAddr, p: nat)
    requires p < PAGES && Filled(m, TableAddr(m, dir, p / TABLE_LEN), p / TABLE_LEN, flags)
    ensures EntryOf(m, dir, p) == Tag(p * PAGE, flags)
  {
    var k, j := p / TABLE_LEN, p % TABLE_LEN;
    assert k * TABLE_LEN + j == p;
    assert ReadWord(m, TableAddr(m, dir, k) + 4 * j) == Tag((k * TABLE_LEN + j) * PAGE, flags);
  }

  lemma TablesAre(m: Mem, n: Mem, flags: Word, dir: PageAddr, tabs: seq<PageAddr>)
    requires flags < 256 && |tabs| == TABLE_LEN && SamePage(m, n, dir)
    requires forall k :: 0 <= k < |tabs| ==> ReadWord(m, dir + 4 * k) == Tag(Tag(tabs[k], flags), WRITEABLE)
    ensures forall k :: 0 <= k < TABLE_LEN ==>
              ReadWord(n, dir + 4 * k) == Tag(Tag(tabs[k], flags), WRITEABLE) && TableAddr(n, dir, k) == tabs[k]
    ensures forall a: PageAddr :: OwnsPage(n, dir, a) <==> a == dir || a in tabs
  {
    forall k | 0 <= k < TABLE_LEN
      ensures ReadWord(n, dir + 4 * k) == Tag(Tag(tabs[k], flags), WRITEABLE) && TableAddr(n, dir, k) == tabs[k]
    {
      ReadSame(m, n, dir, k);
      MaskRecoversTable(tabs[k], flags);
    }
  }

  // ----- Freeing a directory -----

  /** Page a is one of the first n tables of dir. */
  ghost predicate FreedTable(m: Mem, dir: PageAddr, n: nat, a: PageAddr)
    requires n <= TABLE_LEN
  {
    exists i :: 0 <= i < n && TableAddr(m, dir, i) == a
  }

  /** u is t with the blocks of the first n tables freed. */
  ghost predicate TablesFreed(t: seq<Entry>, m: Mem, dir: PageAddr, n: nat, u: seq<Entry>)
    requires n <= TABLE_LEN
  {
    && |t| == |u| == HEAP_BLOCKS
    && forall b :: 0 <= b < HEAP_BLOCKS ==> u[b] == if FreedTable(m, dir, n, BlockAddr(b)) then FREE else t[b]
  }

  lemma TableAt(m: Mem, dir: PageAddr, i: nat)
    requires i < TABLE_LEN
    ensures Mask(ReadWord(m, dir + 4 * i)) == TableAddr(m, dir, i)
  {
  }

  lemma OneMoreFreed(t: seq<Entry>, m: Mem, dir: PageAddr, chunk: PageAddr, i: nat, u: seq<Entry>)
    requires i < TABLE_LEN && Resident(t, m, dir, chunk) && TablesFreed(t, m, dir, i, u)
    ensures IsBlock(TableAddr(m, dir, i))
    ensures TablesFreed(t, m, dir, i + 1, Freed(u, BlockOf(TableAddr(m, dir, i))))
  {
    hide TableAddr;
    var table := TableAddr(m, dir, i);
    assert PtPage(m, dir, chunk, table);
    assert u[BlockOf(table)] == SINGLE;
    FreedSingle(u, BlockOf(table));
    forall b | 0 <= b < HEAP_BLOCKS
      ensures FreedTable(m, dir, i + 1, BlockAddr(b)) <==> FreedTable(m, dir, i, BlockAddr(b)) || b == BlockOf(table)
    {
    }
  }

  lemma AllFreed(t: seq<Entry>, m: Mem, dir: PageAddr, chunk: PageAddr, u: seq<Entry>)
    requires Resident(t, m, dir, chunk) && TablesFreed(t, m, dir, TABLE_LEN, u)
    ensures IsBlock(dir) && IsBlock(chunk)
    ensures Released(t, m, dir, chunk, Freed(Freed(u, BlockOf(dir)), BlockOf(chunk)))
  {
    hide TableAddr;
    assert PtPage(m, dir, chunk, dir) && PtPage(m, dir, chunk, chunk);
    FreedSingle(u, BlockOf(dir));
    FreedSingle(Freed(u, BlockOf(dir)), BlockOf(chunk));
  }

  lemma FreedSingle(t: seq<Entry>, b: nat)
    requires b < |t| && (t[b] == SINGLE || t[b] == FREE)
    ensures Freed(t, b) == t[b := FREE]
  {
    assert !HasNext(t[b]);
  }

  ghost function PtBlocks(m: Mem, dir: PageAddr, chunk: PageAddr): (s: set<nat>)
    ensures forall b: nat :: b in s <==> b < HEAP_BLOCKS && PtPage(m, dir, chunk, BlockAddr(b))
  {
    set b: nat | b < HEAP_BLOCKS && PtPage(m, dir, chunk, BlockAddr(b))
  }

  ghost function TableBlocks(m: Mem, dir: PageAddr, n: nat): set<nat>
    requires n <= TABLE_LEN
  {
    set b: nat | b < HEAP_BLOCKS && FreedTable(m, dir, n, BlockAddr(b))
  }

  lemma {:induction false} TableBlocksCount(m: Mem, dir: PageAddr, n: nat)
    requires n <= TABLE_LEN && DirOk(m, dir)
    requires forall i :: 0 <= i < n ==> IsBlock(TableAddr(m, dir, i))
    ensures |TableBlocks(m, dir, n)| == n
  {
    hide TableAddr;
    if n == 0 {
      assert TableBlocks(m, dir, 0) == {};
    } else {
      TableBlocksCount(m, dir, n - 1);
      var last := TableAddr(m, dir, n - 1);
      forall b: nat | b < HEAP_BLOCKS
        ensures FreedTable(m, dir, n, BlockAddr(b)) <==> FreedTable(m, dir, n - 1, BlockAddr(b)) || BlockAddr(b) == last
      {
      }
      forall i | 0 <= i < n - 1 ensures TableAddr(m, dir, i) != last {
      }
      OneMore(TableBlocks(m, dir, n - 1), TableBlocks(m, dir, n), BlockOf(last));
    }
  }

  lemma OneMore(s: set<nat>, u: set<nat>, b: nat)
    requires b !in s && forall x :: x in u <==> x in s || x == b
    ensures |u| == |s| + 1
  {
    assert u == s + {b};
  }

  /** A paging structure occupies exactly 1026 blocks. */
  lemma StructureSize(t: seq<Entry>, m: Mem, dir: PageAddr, chunk: PageAddr)
    requires Resident(t, m, dir, chunk)
    ensures |PtBlocks(m, dir, chunk)| == 1026
  {
    hide TableAddr; hide ReadWord;
    assert PtPage(m, dir, chunk, dir) && PtPage(m, dir, chunk, chunk);
    forall i | 0 <= i < TABLE_LEN ensures IsBlock(TableAddr(m, dir, i)) {
      assert PtPage(m, dir, chunk, TableAddr(m, dir, i));
    }
    TableBlocksCount(m, dir, TABLE_LEN);
    BlocksAre(m, dir, chunk);
    var tables, d, c := TableBlocks(m, dir, TABLE_LEN), BlockOf(dir), BlockOf(chunk);
    assert !FreedTable(m, dir, TABLE_LEN, dir) && !FreedTable(m, dir, TABLE_LEN, chunk);
    assert BlockAddr(d) == dir && BlockAddr(c) == chunk;
    OneMore(tables, tables + {d}, d);
    OneMore(tables + {d}, tables + {d} + {c}, c);
  }

  lemma BlocksAre(m: Mem, dir: PageAddr, chunk: PageAddr)
    requires IsBlock(dir) && IsBlock(chunk)
    ensures PtBlocks(m, dir, chunk) == TableBlocks(m, dir, TABLE_LEN) + {BlockOf(dir)} + {BlockOf(chunk)}
  {
    forall b: nat | b < HEAP_BLOCKS
      ensures PtPage(m, dir, chunk, BlockAddr(b)) <==>
              FreedTable(m, dir, TABLE_LEN, BlockAddr(b)) || b == BlockOf(dir) || b == BlockOf(chunk)
    {
      assert BlockOf(BlockAddr(b)) == b;
    }
  }

  /** paging_new_4gb, then anything that keeps the structure (paging_set, other allocations and frees), then
      paging_free_4gb: the structure's blocks are free as they were, and every other entry is as the calls in
      between left it. With nothing in between the heap table is restored. */
  lemma PagingConservesHeap(t: seq<Entry>, m: Mem, flags: Word, t1: seq<Entry>, m1: Mem, dir: PageAddr, chunk: PageAddr,
                            t2: seq<Entry>, m2: Mem, t3: seq<Entry>)
    requires Built(t, m, flags, t1, m1, dir, chunk)
    requires |t2| == HEAP_BLOCKS && SameTables(m1, m2, dir) && Released(t2, m2, dir, chunk, t3)
    ensures forall b :: 0 <= b < HEAP_BLOCKS ==> t3[b] == if b in PtBlocks(m1, dir, chunk) then t[b] else t2[b]
    ensures |PtBlocks(m1, dir, chunk)| == 1026
    ensures t2 == t1 ==> t3 == t
  {
    SameTablesOk(m1, m2, dir);
    StructureSize(t1, m1, dir, chunk);
    forall b | 0 <= b < HEAP_BLOCKS
      ensures t3[b] == if b in PtBlocks(m1, dir, chunk) then t[b] else t2[b]
      ensures t2 == t1 ==> t3[b] == t[b]
    {
      assert BlockOf(BlockAddr(b)) == b;
      assert PtPage(m1, dir, chunk, BlockAddr(b)) <==> PtPage(m2, dir, chunk, BlockAddr(b));
    }
  }

  class Machine {
    const heap: Heap
    var mem: Mem

    /** After kheap_init: all blocks free, memory as found. */
    constructor (heap: Heap, mem: Mem)
      requires heap.Valid() && heap.saddr == HEAP_BASE && heap.total == HEAP_BLOCKS
      ensures this.heap == heap && this.mem == mem && Valid()
    {
      this.heap, this.mem := heap, mem;
    }

    ghost predicate Valid()
      reads this
    {
      heap.Valid() && heap.saddr == HEAP_BASE && heap.total == HEAP_BLOCKS
    }

    ghost function Table(): (t: seq<Entry>)
      requires Valid()
      reads this, heap.entries
      ensures |t| == HEAP_BLOCKS
    {
      heap.Table()
    }

    // ----- kheap.c -----

    /** kzalloc. */
    method Kzalloc(size: Word) returns (ptr: Word)
      requires Valid() && Safe(Table(), size)
      modifies this`mem, heap.entries
      ensures Valid()
      ensures var n := Blocks(size);
              var s := old(FirstFit(Table(), n));
              if s < 0 then ptr == 0 && Table() == old(Table()) && mem == old(mem)
              else && FreeRun(old(Table()), s, n) && ptr == BlockAddr(s)
                   && Table() == Marked(old(Table()), s, n)
                   && mem == Zeroed(old(mem), ptr, size)
    {
      var address := heap.Malloc(size);
      if address == 0 {
        return 0;
      }
      ptr := address;
      ghost var m, t := mem, Table();
      for i := 0 to size
        invariant Valid() && Table() == t
        invariant forall j :: 0 <= j < WORD_LIMIT ==> mem[j] == if ptr <= j < ptr + i then 0 else m[j]
      {
        mem := mem[ptr + i := 0];
      }
      assert mem == Zeroed(m, ptr, size);
    }

    /** kfree. */
    method Kfree(ptr: Word)
      requires Valid() && HEAP_BASE <= ptr < HEAP_BASE + INT_LIMIT
      modifies heap.entries
      ensures Table() == Freed(old(Table()), (ptr - HEAP_BASE) / BLOCK_SIZE)
    {
      heap.Free(ptr);
    }

    /** kzalloc of at most one block when some block is free. */
    method KzallocPage(size: Word) returns (ptr: PageAddr)
      requires Valid() && 1 <= size <= BLOCK_SIZE && FreeBlocks(Table()) != {}
      modifies this`mem, heap.entries
      ensures Valid() && IsBlock(ptr)
      ensures old(Table())[BlockOf(ptr)] == FREE && Table() == old(Table())[BlockOf(ptr) := SINGLE]
      ensures FreeBlocks(Table()) == FreeBlocks(old(Table())) - {BlockOf(ptr)}
      ensures forall a: PageAddr :: a != ptr ==> SamePage(old(mem), mem, a)
    {
      FreeBlockFits(Table());
      ghost var t, m := Table(), mem;
      assert Blocks(size) == 1;
      ptr := Kzalloc(size);
      assert Table() == t[BlockOf(ptr) := SINGLE];
      forall a: PageAddr | a != ptr ensures SamePage(m, mem, a) {
        assert a + PAGE <= ptr || ptr + PAGE <= a;
      }
    }

    // ----- paging.c -----

    /** paging_get: the status of paging_get_indexes is ignored, so an unaligned address reads page 0. */
    method PagingGet(dir: PageAddr, virt: Word) returns (e: Word)
      ensures e == Flat(mem, dir)[if virt % PAGE == 0 then virt / PAGE else 0]
    {
      var i, j := 0, 0;
      if virt % PAGE == 0 {
        i, j := DirectoryIndex(virt), TableIndex(virt);
        IndexBijection(virt, i, j);
      }
      var entry := ReadWord(mem, dir + 4 * i);
      var table := Mask(entry);
      e := ReadWord(mem, table + 4 * j);
      assert e == EntryOf(mem, dir, if virt % PAGE == 0 then virt / PAGE else 0);
    }

    /** paging_set. */
    method PagingSet(dir: PageAddr, virt: Word, val: Word) returns (res: int)
      requires Valid() && DirOk(mem, dir)
      modifies this`mem
      ensures Valid()
      ensures virt % PAGE != 0 ==> res == -EINVARG && mem == old(mem)
      ensures virt % PAGE == 0 ==>
                && res == 0
                && mem == WriteWord(old(mem), SlotAddr(old(mem), dir, virt / PAGE), val)
                && Flat(mem, dir) == Flat(old(mem), dir)[virt / PAGE := val]
                && SameTables(old(mem), mem, dir) && OnlyTables(old(mem), mem, dir)
    {
      if virt % PAGE != 0 {
        return -EINVARG;
      }
      var i, j := DirectoryIndex(virt), TableIndex(virt);
      IndexBijection(virt, i, j);
      var table := Mask(ReadWord(mem, dir + 4 * i));
      ghost var m := mem;
      SetRefinesUpdate(m, dir, virt / PAGE, val);
      mem := WriteWord(mem, table + 4 * j, val);
      SetTouchesTable(m, dir, virt / PAGE, val);
      res := 0;
    }

    /** paging_map. */
    method PagingMap(dir: PageAddr, virt: Word, phys: Word, flags: Word) returns (res: int)
      requires Valid() && DirOk(mem, dir)
      modifies this`mem
      ensures Valid()
      ensures virt % PAGE != 0 || phys % PAGE != 0 ==> res == -EINVARG && mem == old(mem)
      ensures virt % PAGE == 0 && phys % PAGE == 0 ==>
                && res == 0
                && mem == WriteWord(old(mem), SlotAddr(old(mem), dir, virt / PAGE), Tag(phys, flags))
                && Flat(mem, dir) == Flat(old(mem), dir)[virt / PAGE := Tag(phys, flags)]
                && SameTables(old(mem), mem, dir) && OnlyTables(old(mem), mem, dir)
    {
      if virt % PAGE != 0 || phys % PAGE != 0 {
        return -EINVARG;
      }
      res := PagingSet(dir, virt, Tag(phys, flags));
    }

    /** paging_map_range, on the page-aligned addresses its one caller passes; the virtual address wraps. */
    method PagingMapRange(dir: PageAddr, virt: PageAddr, phys: PageAddr, count: nat, flags: Word) returns (res: int)
      requires Valid() && DirOk(mem, dir) && count < PAGES && phys + count * PAGE < WORD_LIMIT
      modifies this`mem
      ensures Valid() && res == 0
      ensures Flat(mem, dir) == Mapped(Flat(old(mem), dir), virt / PAGE, phys, count, flags)
      ensures SameTables(old(mem), mem, dir) && OnlyTables(old(mem), mem, dir)
    {
      hide Mapped; hide TableAddr; hide EntryOf; hide SlotAddr; hide WriteWord;
      ghost var m := mem;
      MappedZero(Flat(mem, dir), virt / PAGE, phys, flags);
      assert RangeDone(m, mem, dir, virt / PAGE, phys, 0, flags);
      var v, p := virt, phys;
      res := 0;
      for i := 0 to count
        invariant Valid() && res == 0
        invariant p == phys + i * PAGE && v == (virt / PAGE + i) % PAGES * PAGE
        invariant RangeDone(m, mem, dir, virt / PAGE, phys, i, flags)
      {
        ghost var n := mem;
        SameTablesOk(m, mem, dir);
        WrapPage(virt / PAGE + i);
        res := PagingMap(dir, v, p, flags);
        if res < 0 {
          break;
        }
        RangeStep(m, n, mem, dir, virt / PAGE, phys, i, flags);
        v, p := (v + PAGE) % WORD_LIMIT, p + PAGE;
      }
    }

    /** paging_map_to. */
    method PagingMapTo(dir: PageAddr, virt: Word, phys: Word, physEnd: Word, flags: Word) returns (res: int)
      requires Valid() && DirOk(mem, dir)
      modifies this`mem
      ensures Valid()
      ensures res == 0 <==> virt % PAGE == 0 && phys % PAGE == 0 && physEnd % PAGE == 0 && phys <= physEnd
      ensures res != 0 ==> res == -EINVARG && mem == old(mem)
      ensures res == 0 ==>
                && Flat(mem, dir) == Mapped(Flat(old(mem), dir), virt / PAGE, phys, (physEnd - phys) / PAGE, flags)
                && SameTables(old(mem), mem, dir) && OnlyTables(old(mem), mem, dir)
    {
      if virt % PAGE != 0 || phys % PAGE != 0 || physEnd % PAGE != 0 || physEnd < phys {
        return -EINVARG;
      }
      res := PagingMapRange(dir, virt, phys, (physEnd - phys) / PAGE, flags);
    }

    /** paging_get_physical_address. */
    method PagingGetPhysicalAddress(dir: PageAddr, virt: Word) returns (phys: Word)
      ensures phys == Translate(Flat(mem, dir), virt)
    {
      var lower := virt - virt % PAGE;
      LowerPage(virt);
      var e := PagingGet(dir, lower);
      phys := Mask(e) + (virt - lower);
    }

    /** The inner loop of paging_new_4gb: fill one table with consecutive frames. */
    method FillTable(table: PageAddr, offset: PageAddr, flags: Word)
      requires Valid() && offset + TABLE_LEN * PAGE <= WORD_LIMIT
      modifies this`mem
      ensures Valid()
      ensures forall j :: 0 <= j < TABLE_LEN ==> ReadWord(mem, table + 4 * j) == Tag(offset + j * PAGE, flags)
      ensures forall a: PageAddr :: a != table ==> SamePage(old(mem), mem, a)
    {
      hide ReadWord; hide WriteWord; hide Tag;
      ghost var m := mem;
      for j := 0 to TABLE_LEN
        invariant Valid()
        invariant forall k :: 0 <= k < j ==> ReadWord(mem, table + 4 * k) == Tag(offset + k * PAGE, flags)
        invariant forall a: PageAddr :: a != table ==> SamePage(m, mem, a)
      {
        ghost var n := mem;
        var val := Tag(offset + j * PAGE, flags);
        mem := WriteWord(mem, table + 4 * j, val);
        ReadBack(n, table + 4 * j, val);
        forall a: PageAddr | a != table ensures SamePage(m, mem, a) {
          WriteElsewhere(n, table + 4 * j, val, table, a);
          assert SamePage(m, n, a);
        }
        forall k | 0 <= k < j ensures ReadWord(mem, table + 4 * k) == ReadWord(n, table + 4 * k) {
          WriteOtherWord(n, table, j, val, k);
        }
      }
    }

    /** One turn of the outer loop of paging_new_4gb: allocate a table, fill it and enter it in the directory. */
    method AddTable(ghost t: seq<Entry>, ghost m: Mem, directory: PageAddr, i: nat, offset: Word, flags: Word,
                    ghost tabs: seq<PageAddr>)
      returns (entry: PageAddr)
      requires Valid() && i == |tabs| < TABLE_LEN && offset == i * TABLE_LEN * PAGE && FreeBlocks(Table()) != {}
      requires BlocksTaken(t, Table(), directory, tabs) && TablesFilled(m, mem, flags, directory, tabs)
      modifies this`mem, heap.entries
      ensures Valid() && |FreeBlocks(Table())| == |FreeBlocks(old(Table()))| - 1
      ensures BlocksTaken(t, Table(), directory, tabs + [entry])
      ensures TablesFilled(m, mem, flags, directory, tabs + [entry])
    {
      hide ReadWord; hide WriteWord; hide Tag; hide TablesFilled;
      ghost var t1, m1 := Table(), mem;
      entry := KzallocPage(4 * TABLE_LEN);
      ghost var m2 := mem;
      BlocksExtend(t, t1, directory, tabs, entry);
      TabsApart(t, t1, directory, tabs, entry);
      FillTable(entry, offset, flags);
      ghost var m3 := mem;
      forall a: PageAddr | a != entry ensures SamePage(m1, m3, a) {
        assert SamePage(m1, m2, a) && SamePage(m2, m3, a);
      }
      mem := WriteWord(mem, directory + 4 * i, Tag(Tag(entry, flags), WRITEABLE));
      TablesExtend(m, m1, flags, directory, tabs, entry, m3);
    }

    /** paging_4gb_chunk_get_directory. */
    method DirectoryOf(chunk: PageAddr) returns (dir: Word)
      ensures dir == ReadWord(mem, chunk)
    {
      dir := ReadWord(mem, chunk);
    }

    /** paging_new_4gb, when enough blocks are free. */
    method PagingNew4gb(flags: Word) returns (chunk: PageAddr, ghost dir: PageAddr)
      requires Valid() && flags < 256 && |FreeBlocks(Table())| >= 1026
      modifies this`mem, heap.entries
      ensures Valid()
      ensures Built(old(Table()), old(mem), flags, Table(), mem, dir, chunk)
    {
      ghost var t, m := Table(), mem;
      var directory := KzallocPage(4 * TABLE_LEN);
      dir := directory;
      ghost var tabs: seq<PageAddr> := [];
      NoTablesYet(t, Table(), m, mem, flags, dir);
      hide BlocksTaken; hide TablesFilled; hide Built;
      var offset := 0;
      for i := 0 to TABLE_LEN
        invariant Valid() && |tabs| == i && (i < TABLE_LEN ==> offset == i * TABLE_LEN * PAGE)
        invariant |FreeBlocks(Table())| >= 1025 - i >= 1
        invariant BlocksTaken(t, Table(), dir, tabs)
        invariant TablesFilled(m, mem, flags, dir, tabs)
      {
        var entry := AddTable(t, m, directory, i, offset, flags, tabs);
        offset := (offset + PAGE * TABLE_LEN) % WORD_LIMIT;
        tabs := tabs + [entry];
      }
      chunk := MakeChunk(t, m, flags, directory, tabs);
    }

    /** The end of paging_new_4gb: the chunk that names the directory. */
    method MakeChunk(ghost t: seq<Entry>, ghost m: Mem, flags: Word, directory: PageAddr, ghost tabs: seq<PageAddr>)
      returns (chunk: PageAddr)
      requires Valid() && flags < 256 && |tabs| == TABLE_LEN && FreeBlocks(Table()) != {}
      requires BlocksTaken(t, Table(), directory, tabs) && TablesFilled(m, mem, flags, directory, tabs)
      modifies this`mem, heap.entries
      ensures Valid() && Built(t, m, flags, Table(), mem, directory, chunk)
    {
      hide BlocksTaken; hide TablesFilled; hide Built; hide WriteWord;
      ghost var t1, m1 := Table(), mem;
      chunk := KzallocPage(4);
      ghost var m2 := mem;
      mem := WriteWord(mem, chunk, directory);
      ChunkDone(t, m, flags, t1, m1, directory, tabs, chunk, m2);
    }

    /** paging_free_4gb. */
    method PagingFree4gb(chunk: PageAddr, ghost dir: PageAddr)
      requires Valid() && Resident(Table(), mem, dir, chunk)
      modifies heap.entries
      ensures Released(old(Table()), mem, dir, chunk, Table())
    {
      ghost var t := Table();
      var directory := ReadWord(mem, chunk);
      for i := 0 to TABLE_LEN
        invariant TablesFreed(t, mem, dir, i, Table())
      {
        hide TableAddr; hide TablesFreed;
        var table := Mask(ReadWord(mem, directory + 4 * i));
        assert table == TableAddr(mem, dir, i) by { TableAt(mem, dir, i); }
        OneMoreFreed(t, mem, dir, chunk, i, Table());
        Kfree(table);
      }
      hide FreedTable;
      AllFreed(t, mem, dir, chunk, Table());
      Kfree(directory);
      Kfree(chunk);
    }
  }


  lemma LowerPage(virt: Word)
    ensures (virt - virt % PAGE) % PAGE == 0 && (virt - virt % PAGE) / PAGE == virt / PAGE
  {
  }

  lemma WrapPage(q: nat)
    ensures (q % PAGES * PAGE + PAGE) % WORD_LIMIT == (q + 1) % PAGES * PAGE
    ensures q % PAGES * PAGE / PAGE == q % PAGES
  {
    assert (q + 1) % PAGES == if q % PAGES == PAGES - 1 then 0 else q % PAGES + 1;
  }
}
