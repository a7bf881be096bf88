/**
 copy_string_from_task: reading a string out of a task's address space through a scratch page that is
 mapped into the task and unmapped again.
 */
module CopyString {
  import opened Bits
  import opened Memory
  import opened BlockTable
  import opened KernelHeap
  import opened PageMap
  import opened Kernel
  import opened Processes
  import opened Status

  /** The directory in force: the kernel's, which maps every address to itself, or a task's. */
  datatype Space = KernelSpace | TaskSpace(dir: PageAddr)

  ghost function Phys(m: Mem, space: Space, v: Word): Word {
    match space
    case KernelSpace => v
    case TaskSpace(dir) => Translate(Flat(m, dir), v)
  }

  /** The i-th byte of the string at src. */
  ghost function SrcByte(m: Mem, space: Space, src: Word, i: nat): Byte {
    m[Phys(m, space, (src + i) % WORD_LIMIT)]
  }

  /** Where a copy of at most n bytes of the string at src stops, from i on. */
  ghost function CutLen(m: Mem, space: Space, src: Word, i: nat, n: nat): (r: nat)
    requires i <= n
    ensures i <= r <= n
    ensures forall j :: i <= j < r ==> SrcByte(m, space, src, j) != 0
    ensures r < n ==> SrcByte(m, space, src, r) == 0
    decreases n - i
  {
    if i == n || SrcByte(m, space, src, i) == 0 then i else CutLen(m, space, src, i + 1, n)
  }

  /** The bytes [d, d + count) lie in no page of the directory in force. */
  ghost predicate ClearOfTables(m: Mem, space: Space, d: nat, count: nat) {
    space.TaskSpace? ==> forall x: Word :: d <= x < d + count ==> !OwnsPage(m, space.dir, Mask(x))
  }

  /** The count bytes at virtual address dst are the physical bytes at d. */
  ghost predicate LandsAt(m: Mem, space: Space, dst: Word, d: nat, j: nat) {
    Phys(m, space, (dst + j) % WORD_LIMIT) == d + j
  }

  /** The j-th source byte is none of the n + 1 bytes at d. */
  ghost predicate ReadsOutside(m: Mem, space: Space, src: Word, d: nat, n: nat, j: nat) {
    !(d <= Phys(m, space, (src + j) % WORD_LIMIT) <= d + n)
  }

  /** n is m with the first i bytes of the string at src written at d. */
  ghost predicate Prefix(m: Mem, space: Space, src: Word, i: nat, d: nat, n: Mem) {
    forall x: nat :: x < WORD_LIMIT ==> n[x] == if d <= x < d + i then SrcByte(m, space, src, x - d) else m[x]
  }

  /** m' is m with the first n bytes of the string at src, and a terminator, at d. */
  ghost predicate Copied(m: Mem, space: Space, src: Word, n: nat, d: nat, m': Mem) {
    forall x: nat :: x < WORD_LIMIT ==>
      m'[x] == if d <= x < d + n then SrcByte(m, space, src, x - d) else if x == d + n then 0 else m[x]
  }

  /** Addresses mean the same in m and n. */
  ghost predicate SameSpace(m: Mem, n: Mem, space: Space) {
    && (forall v :: Phys(n, space, v) == Phys(m, space, v))
    && (space.TaskSpace? ==> SameTables(m, n, space.dir))
  }

  /** A store outside the pages of the directory in force does not change what addresses mean. */
  lemma StoreKeepsSpace(m: Mem, n: Mem, space: Space, x: Word, val: Byte)
    requires SameSpace(m, n, space) && (space.TaskSpace? ==> !OwnsPage(m, space.dir, Mask(x)))
    ensures SameSpace(m, n[x := val], space)
  {
    if space.TaskSpace? {
      SameTablesOk(m, n, space.dir);
      forall a: PageAddr | OwnsPage(n, space.dir, a) ensures SamePage(n, n[x := val], a) {
        StoreElsewhere(n, x, val, a);
      }
      FlatFrame(n, n[x := val], space.dir);
      assert forall v :: Phys(n[x := val], space, v) == Phys(n, space, v);
    }
  }

  method Resolve(k: Machine, space: Space, v: Word) returns (p: Word)
    ensures p == Phys(k.mem, space, v)
  {
    match space
    case KernelSpace => p := v;
    case TaskSpace(dir) => p := k.PagingGetPhysicalAddress(dir, v);
  }

  lemma PrefixStep(m: Mem, n: Mem, space: Space, src: Word, i: nat, d: nat)
    requires Prefix(m, space, src, i, d, n) && d + i < WORD_LIMIT
    ensures Prefix(m, space, src, i + 1, d, n[d + i := SrcByte(m, space, src, i)])
    ensures Copied(m, space, src, i, d, n[d + i := 0])
  {
    hide Phys;
  }

  lemma SourceIntact(m: Mem, n: Mem, space: Space, src: Word, i: nat, d: nat, last: nat)
    requires Prefix(m, space, src, i, d, n) && i <= last && ReadsOutside(m, space, src, d, last, i)
    ensures n[Phys(m, space, (src + i) % WORD_LIMIT)] == SrcByte(m, space, src, i)
  {
    hide Phys;
  }

  /** What strncpy needs: the bytes that it writes, up to the terminator, are the physical range at d, clear of the
      tables in force, and the bytes that it reads lie outside it. */
  ghost predicate CopyClear(m: Mem, space: Space, dst: Word, src: Word, count: nat, d: nat)
    requires count >= 1
  {
    var n := CutLen(m, space, src, 0, count - 1);
    && d + n < WORD_LIMIT
    && (forall j :: 0 <= j <= n ==> LandsAt(m, space, dst, d, j))
    && (forall j :: 0 <= j <= n && j < count - 1 ==> ReadsOutside(m, space, src, d, n, j))
    && ClearOfTables(m, space, d, n + 1)
  }

  /** strncpy: at most count - 1 bytes, always terminated. */
  method Strncpy(k: Machine, space: Space, dst: Word, src: Word, count: nat, ghost d: nat)
    requires k.Valid() && count >= 1 && CopyClear(k.mem, space, dst, src, count, d)
    modifies k`mem
    ensures k.Valid() && SameSpace(old(k.mem), k.mem, space)
    ensures Copied(old(k.mem), space, src, CutLen(old(k.mem), space, src, 0, count - 1), d, k.mem)
  {
    hide Phys; hide OwnsPage; hide SameTables; hide Prefix; hide Copied; hide ReadsOutside; hide SrcByte;
    ghost var m := k.mem;
    ghost var n := CutLen(m, space, src, 0, count - 1);
    NothingCopied(m, space, src, d);
    var i := 0;
    while i < count - 1
      invariant k.Valid() && 0 <= i <= n
      invariant SameSpace(m, k.mem, space) && Prefix(m, space, src, i, d, k.mem)
      invariant n == CutLen(m, space, src, i, count - 1)
    {
      var s := Resolve(k, space, (src + i) % WORD_LIMIT);
      SourceIntact(m, k.mem, space, src, i, d, n);
      if k.mem[s] == 0 {
        break;
      }
      assert LandsAt(m, space, dst, d, i);
      var t := Resolve(k, space, (dst + i) % WORD_LIMIT);
      StoreKeepsSpace(m, k.mem, space, t, k.mem[s]);
      PrefixStep(m, k.mem, space, src, i, d);
      k.mem := k.mem[t := k.mem[s]];
      i := i + 1;
    }
    assert LandsAt(m, space, dst, d, i);
    var t := Resolve(k, space, (dst + i) % WORD_LIMIT);
    StoreKeepsSpace(m, k.mem, space, t, 0);
    PrefixStep(m, k.mem, space, src, i, d);
    k.mem := k.mem[t := 0];
  }

  lemma NothingCopied(m: Mem, space: Space, src: Word, d: nat)
    ensures Prefix(m, space, src, 0, d, m) && SameSpace(m, m, space)
  {
  }

  // ----- The round trip of the scratch page -----

  /** m and n differ at most in page tmp. */
  ghost predicate SameOutside(m: Mem, n: Mem, tmp: PageAddr) {
    forall x: Word :: Mask(x) != tmp ==> n[x] == m[x]
  }

  /** The j-th source byte can be read, and is read neither through nor from the scratch page, nor from the entry that
      maps it. */
  ghost predicate SourceClear(m: Mem, dir: PageAddr, src: Word, tmp: PageAddr, j: nat) {
    var v := (src + j) % WORD_LIMIT;
    var x := Translate(Flat(m, dir), v);
    var slot := SlotAddr(m, dir, tmp / PAGE);
    && IsPresent(Flat(m, dir)[v / PAGE])
    && v / PAGE != tmp / PAGE && Mask(x) != tmp && !(slot <= x < slot + 4)
  }

  /** The scratch page has been mapped into the task: m2 is m with bytes of page tmp and one table slot changed. */
  ghost predicate ScratchMapped(m: Mem, m2: Mem, dir: PageAddr, tmp: PageAddr) {
    && SameTables(m, m2, dir)
    && Flat(m2, dir) == Flat(m, dir)[tmp / PAGE := Tag(tmp, USER_RW)]
    && forall x: Word :: Mask(x) != tmp && !(SlotAddr(m, dir, tmp / PAGE) <= x < SlotAddr(m, dir, tmp / PAGE) + 4) ==>
         m2[x] == m[x]
  }

  lemma SourceSame(m: Mem, m2: Mem, dir: PageAddr, src: Word, tmp: PageAddr, j: nat)
    requires ScratchMapped(m, m2, dir, tmp) && SourceClear(m, dir, src, tmp, j)
    ensures SrcByte(m2, TaskSpace(dir), src, j) == SrcByte(m, TaskSpace(dir), src, j)
    ensures forall n: nat :: n < PAGE ==> ReadsOutside(m2, TaskSpace(dir), src, tmp, n, j)
  {
    hide Flat; hide SlotAddr;
    var x := Translate(Flat(m, dir), (src + j) % WORD_LIMIT);
    assert Translate(Flat(m2, dir), (src + j) % WORD_LIMIT) == x;
    assert !(tmp <= x < tmp + PAGE) by { PageOf(x, tmp); }
  }

  lemma PageIndex(a: PageAddr, j: nat)
    requires j < PAGE
    ensures (a + j) / PAGE == a / PAGE && (a + j) % PAGE == j && (a + j) % WORD_LIMIT == a + j
  {
    ModUnique(a + j, PAGE, a / PAGE, j);
  }

  lemma PageOf(x: Word, a: PageAddr)
    ensures Mask(x) == a <==> a <= x < a + PAGE
  {
  }

  lemma {:induction false} CutLenIs(m: Mem, space: Space, src: Word, i: nat, count: nat, r: nat)
    requires i <= r <= count && (r < count ==> SrcByte(m, space, src, r) == 0)
    requires forall j :: i <= j < r ==> SrcByte(m, space, src, j) != 0
    ensures CutLen(m, space, src, i, count) == r
    decreases count - i
  {
    if i < r {
      CutLenIs(m, space, src, i + 1, count, r);
    }
  }

  /** The scratch page maps to itself, clear of the tables. */
  lemma ScratchLands(m: Mem, m2: Mem, dir: PageAddr, tmp: PageAddr, count: nat)
    requires ScratchMapped(m, m2, dir, tmp) && count <= PAGE && !OwnsPage(m, dir, tmp)
    ensures forall j :: 0 <= j < count ==> LandsAt(m2, TaskSpace(dir), tmp, tmp, j)
    ensures ClearOfTables(m2, TaskSpace(dir), tmp, count)
  {
    hide Flat; hide SlotAddr;
    forall j | 0 <= j < count ensures LandsAt(m2, TaskSpace(dir), tmp, tmp, j) {
      hide OwnsPage; hide SameTables; hide ScratchMapped;
      PageIndex(tmp, j);
      TagByte(Flat(m2, dir), tmp + j, tmp, USER_RW);
    }
    SameTablesOk(m, m2, dir);
    forall x: Word | tmp <= x < tmp + count ensures !OwnsPage(m2, dir, Mask(x)) {
      PageOf(x, tmp);
    }
  }

  /** Putting the old entry back leaves everything but the scratch page as it was. */
  lemma EntryRestored(m: Mem, m3: Mem, dir: PageAddr, tmp: PageAddr)
    requires !OwnsPage(m, dir, tmp)
    requires forall x: Word ::
               Mask(x) != tmp && !(SlotAddr(m, dir, tmp / PAGE) <= x < SlotAddr(m, dir, tmp / PAGE) + 4) ==>
               m3[x] == m[x]
    ensures var m4 := WriteWord(m3, SlotAddr(m, dir, tmp / PAGE), EntryOf(m, dir, tmp / PAGE));
            SameOutside(m, m4, tmp) && SameTables(m, m4, dir) && Flat(m4, dir) == Flat(m, dir)
  {
    var slot := SlotAddr(m, dir, tmp / PAGE);
    var m4 := WriteWord(m3, slot, EntryOf(m, dir, tmp / PAGE));
    RestoresBytes(m, m3, slot);
    assert SameOutside(m, m4, tmp);
    OutsideKeepsMap(m, m4, dir, tmp);
  }

  lemma OutsideKeepsMap(m: Mem, n: Mem, dir: PageAddr, tmp: PageAddr)
    requires SameOutside(m, n, tmp) && !OwnsPage(m, dir, tmp)
    ensures SameTables(m, n, dir) && Flat(n, dir) == Flat(m, dir)
  {
    forall a: PageAddr | OwnsPage(m, dir, a) ensures SamePage(m, n, a) {
      forall x | a <= x < a + 4096 ensures m[x] == n[x] {
        PageOf(x, a);
      }
    }
    FlatFrame(m, n, dir);
  }

  /** What is left after the call: the string at phys, everything else but the scratch page untouched. */
  ghost predicate StringDelivered(m: Mem, dir: PageAddr, src: Word, max: nat, phys: Word, tmp: PageAddr, m': Mem)
    requires max >= 1
  {
    var n := CutLen(m, TaskSpace(dir), src, 0, max - 1);
    forall x: Word :: Mask(x) != tmp ==>
      m'[x] == if phys <= x < phys + n then SrcByte(m, TaskSpace(dir), src, x - phys)
               else if x == phys + n then 0 else m[x]
  }

  /** The scratch page of a call: the block the allocator will give. */
  ghost function Scratch(t: seq<Entry>): PageAddr
    requires |t| == HEAP_BLOCKS && HasFit(t, 1)
  {
    BlockAddr(FirstFit(t, 1))
  }

  /** The bytes that are read of the source, up to its terminator, and those that are written at the destination are
      reached without touching the scratch page, the entry that maps it, or, for writing, the task's tables. */
  ghost predicate CallClear(m: Mem, dir: PageAddr, src: Word, phys: Word, max: nat, tmp: PageAddr)
    requires max >= 1
  {
    var n := CutLen(m, TaskSpace(dir), src, 0, max - 1);
    && phys + n < WORD_LIMIT
    && (forall j :: 0 <= j <= n && j < max - 1 ==> SourceClear(m, dir, src, tmp, j))
    && (forall x: Word :: phys <= x <= phys + n ==> Mask(x) != tmp && !OwnsPage(m, dir, Mask(x)))
  }

  /** The task's string, read through the map with the scratch page in it, is the same. */
  lemma StringSame(m: Mem, m2: Mem, dir: PageAddr, src: Word, phys: Word, max: nat, tmp: PageAddr)
    requires 1 <= max < PAGE && ScratchMapped(m, m2, dir, tmp) && CallClear(m, dir, src, phys, max, tmp)
    ensures var n := CutLen(m, TaskSpace(dir), src, 0, max - 1);
            && CutLen(m2, TaskSpace(dir), src, 0, max - 1) == n
            && (forall j :: 0 <= j <= n && j < max - 1 ==>
                  SrcByte(m2, TaskSpace(dir), src, j) == SrcByte(m, TaskSpace(dir), src, j))
            && (forall j :: 0 <= j <= n && j < max - 1 ==> ReadsOutside(m2, TaskSpace(dir), src, tmp, n, j))
  {
    hide ScratchMapped; hide SourceClear; hide SrcByte; hide ReadsOutside;
    var n := CutLen(m, TaskSpace(dir), src, 0, max - 1);
    forall j | 0 <= j <= n && j < max - 1
      ensures SrcByte(m2, TaskSpace(dir), src, j) == SrcByte(m, TaskSpace(dir), src, j)
      ensures ReadsOutside(m2, TaskSpace(dir), src, tmp, n, j)
    {
      SourceSame(m, m2, dir, src, tmp, j);
    }
    CutLenIs(m2, TaskSpace(dir), src, 0, max - 1, n);
  }

  /** The scratch page holds the string. */
  lemma ScratchHolds(m: Mem, dir: PageAddr, src: Word, max: nat, phys: Word, tmp: PageAddr, m2: Mem, m3: Mem, m4: Mem)
    requires 1 <= max < PAGE && ScratchMapped(m, m2, dir, tmp) && CallClear(m, dir, src, phys, max, tmp)
    requires Copied(m2, TaskSpace(dir), src, CutLen(m2, TaskSpace(dir), src, 0, max - 1), tmp, m3)
    requires SamePage(m3, m4, tmp)
    ensures var n := CutLen(m, TaskSpace(dir), src, 0, max - 1);
            && CutLen(m4, KernelSpace, tmp, 0, max - 1) == n
            && forall j :: 0 <= j < n ==> SrcByte(m4, KernelSpace, tmp, j) == SrcByte(m, TaskSpace(dir), src, j)
  {
    hide ScratchMapped; hide SrcByte;
    var n := CutLen(m, TaskSpace(dir), src, 0, max - 1);
    StringSame(m, m2, dir, src, phys, max, tmp);
    forall j | 0 <= j <= n
      ensures SrcByte(m4, KernelSpace, tmp, j) == if j < n then SrcByte(m, TaskSpace(dir), src, j) else 0
    {
      KernelByte(m4, tmp, j);
      assert m4[tmp + j] == m3[tmp + j];
    }
    CutLenIs(m4, KernelSpace, tmp, 0, max - 1, n);
  }

  lemma Delivered(m: Mem, dir: PageAddr, src: Word, max: nat, phys: Word, tmp: PageAddr, m2: Mem, m3: Mem, m4: Mem,
                  m5: Mem)
    requires 1 <= max < PAGE && ScratchMapped(m, m2, dir, tmp) && CallClear(m, dir, src, phys, max, tmp)
    requires Copied(m2, TaskSpace(dir), src, CutLen(m2, TaskSpace(dir), src, 0, max - 1), tmp, m3)
    requires SameOutside(m, m4, tmp) && SamePage(m3, m4, tmp)
    requires Copied(m4, KernelSpace, tmp, CutLen(m4, KernelSpace, tmp, 0, max - 1), phys, m5)
    ensures StringDelivered(m, dir, src, max, phys, tmp, m5)
  {
    hide ScratchMapped; hide CallClear; hide SrcByte;
    ScratchHolds(m, dir, src, max, phys, tmp, m2, m3, m4);
  }

  /** The n bytes at phys in m' are those that a program with directory dir reads from src on in m; the string ends with
      them, or they are max - 1; and a terminator follows. */
  ghost predicate TextAt(m: Mem, dir: PageAddr, src: Word, max: nat, m': Mem, phys: Word, n: nat) {
    && n < max && phys + n < WORD_LIMIT && m'[phys + n] == 0
    && (forall x: Word :: phys <= x < phys + n ==>
          m'[x] == m[Translate(Flat(m, dir), (src + (x - phys)) % 0x1_0000_0000)] != 0)
    && (n == max - 1 || m[Translate(Flat(m, dir), (src + n) % 0x1_0000_0000)] == 0)
  }

  /** What was delivered is the program's string. */
  lemma DeliveredText(m: Mem, dir: PageAddr, src: Word, max: nat, phys: Word, tmp: PageAddr, m': Mem)
    requires max >= 1 && StringDelivered(m, dir, src, max, phys, tmp, m') && CallClear(m, dir, src, phys, max, tmp)
    ensures exists n: nat :: TextAt(m, dir, src, max, m', phys, n)
  {
    hide Flat; hide Translate; hide OwnsPage; hide SourceClear;
    var n := CutLen(m, TaskSpace(dir), src, 0, max - 1);
    forall x: Word | phys <= x < phys + n
      ensures m'[x] == m[Translate(Flat(m, dir), (src + (x - phys)) % 0x1_0000_0000)] != 0
    {
      assert SrcByte(m, TaskSpace(dir), src, x - phys) != 0;
    }
    assert TextAt(m, dir, src, max, m', phys, n);
  }

  lemma KernelByte(m: Mem, tmp: PageAddr, j: nat)
    requires j < PAGE
    ensures SrcByte(m, KernelSpace, tmp, j) == m[tmp + j]
  {
    PageIndex(tmp, j);
  }

  /** The step of paging_map on the scratch page. */
  lemma MapScratch(t: seq<Entry>, m: Mem, dir: PageAddr, chunk: PageAddr, tmp: PageAddr, m1: Mem)
    requires Resident(t, m, dir, chunk) && IsBlock(tmp) && t[BlockOf(tmp)] == FREE && SameOutside(m, m1, tmp)
    ensures !OwnsPage(m, dir, tmp) && DirOk(m1, dir) && SlotAddr(m1, dir, tmp / PAGE) == SlotAddr(m, dir, tmp / PAGE)
    ensures Flat(m1, dir) == Flat(m, dir)
    ensures ScratchMapped(m, WriteWord(m1, SlotAddr(m1, dir, tmp / PAGE), Tag(tmp, USER_RW)), dir, tmp)
  {
    assert !OwnsPage(m, dir, tmp) by {
      if OwnsPage(m, dir, tmp) { assert PtPage(m, dir, chunk, tmp); assert false; }
    }
    OutsideKeepsMap(m, m1, dir, tmp);
    SameTablesOk(m, m1, dir);
    SetRefinesUpdate(m1, dir, tmp / PAGE, Tag(tmp, USER_RW));
  }

  lemma FirstFitOfOne(t: seq<Entry>)
    ensures HasFit(t, 1) || LastTaken(t)
    ensures HasFit(t, 1) <==> FirstFit(t, 1) >= 0
  {
    if !LastTaken(t) { assert FreeRun(t, |t| - 1, 1); }
  }

  lemma ZeroedOutside(m: Mem, tmp: PageAddr, max: nat)
    requires max <= PAGE
    ensures SameOutside(m, Zeroed(m, tmp, max), tmp)
  {
    forall x: Word | Mask(x) != tmp ensures Zeroed(m, tmp, max)[x] == m[x] {
      PageOf(x, tmp);
    }
  }

  lemma SlotSame(m: Mem, n: Mem, dir: PageAddr, p: nat)
    requires SameTables(m, n, dir) && p < PAGES
    ensures SlotAddr(n, dir, p) == SlotAddr(m, dir, p)
  {
  }

  /** The task-side copy changed only the scratch page, so putting the entry back restores the rest. */
  lemma Unmapped(m: Mem, m2: Mem, m3: Mem, dir: PageAddr, tmp: PageAddr, src: Word, n: nat)
    requires ScratchMapped(m, m2, dir, tmp) && n < PAGE && !OwnsPage(m, dir, tmp) && DirOk(m, dir)
    requires Copied(m2, TaskSpace(dir), src, n, tmp, m3) && SameTables(m2, m3, dir)
    ensures DirOk(m3, dir)
    ensures var m4 := WriteWord(m3, SlotAddr(m3, dir, tmp / PAGE), EntryOf(m, dir, tmp / PAGE));
            && SameOutside(m, m4, tmp) && SamePage(m3, m4, tmp)
  {
    hide Flat; hide EntryOf; hide TableAddr; hide SrcByte;
    SameTablesOk(m, m2, dir);
    SameTablesOk(m2, m3, dir);
    SlotSame(m, m2, dir, tmp / PAGE);
    SlotSame(m2, m3, dir, tmp / PAGE);
    forall x: Word | Mask(x) != tmp && !(SlotAddr(m, dir, tmp / PAGE) <= x < SlotAddr(m, dir, tmp / PAGE) + 4)
      ensures m3[x] == m[x]
    {
      PageOf(x, tmp);
    }
    EntryRestored(m, m3, dir, tmp);
    var table := TableAddr(m, dir, tmp / PAGE / TABLE_LEN);
    assert OwnsPage(m, dir, table);
    WriteElsewhere(m3, SlotAddr(m, dir, tmp / PAGE), EntryOf(m, dir, tmp / PAGE), table, tmp);
  }

  lemma NoWrap(x: Word)
    ensures x % WORD_LIMIT == x
  {
  }

  /** The kernel-side copy: from the scratch page to phys, under the identity map. */
  lemma KernelLands(m: Mem, m4: Mem, dir: PageAddr, src: Word, phys: Word, max: nat, tmp: PageAddr)
    requires 1 <= max < PAGE && CallClear(m, dir, src, phys, max, tmp)
    requires CutLen(m4, KernelSpace, tmp, 0, max - 1) == CutLen(m, TaskSpace(dir), src, 0, max - 1)
    ensures CopyClear(m4, KernelSpace, phys, tmp, max, phys)
  {
    hide SourceClear; hide CutLen;
    var n := CutLen(m4, KernelSpace, tmp, 0, max - 1);
    forall j | 0 <= j <= n ensures LandsAt(m4, KernelSpace, phys, phys, j) {
      NoWrap(phys + j);
    }
    forall j | 0 <= j <= n && j < max - 1 ensures ReadsOutside(m4, KernelSpace, tmp, phys, n, j) {
      PageIndex(tmp, j);
      PageOf(tmp + j, tmp);
    }
  }

  lemma DeliveredKeepsMap(m: Mem, dir: PageAddr, src: Word, max: nat, phys: Word, tmp: PageAddr, m5: Mem)
    requires max >= 1 && StringDelivered(m, dir, src, max, phys, tmp, m5) && CallClear(m, dir, src, phys, max, tmp)
    requires !OwnsPage(m, dir, tmp)
    ensures SameTables(m, m5, dir) && Flat(m5, dir) == Flat(m, dir)
  {
    forall a: PageAddr | OwnsPage(m, dir, a) ensures SamePage(m, m5, a) {
      forall x | a <= x < a + 4096 ensures m[x] == m5[x] {
        PageOf(x, a);
      }
    }
    FlatFrame(m, m5, dir);
  }

  /** copy_string_from_task. */
  method CopyStringFromTask(k: Machine, dir: PageAddr, ghost chunk: PageAddr, virtual: Word, phys: Word, max: nat)
    returns (res: int)
    requires k.Valid() && Resident(k.Table(), k.mem, dir, chunk) && max >= 1
    requires max < PAGE && HasFit(k.Table(), 1) ==> CallClear(k.mem, dir, virtual, phys, max, Scratch(k.Table()))
    modifies k`mem, k.heap.entries
    ensures k.Valid() && k.Table() == old(k.Table())
    ensures Flat(k.mem, dir) == Flat(old(k.mem), dir) && SameTables(old(k.mem), k.mem, dir)
    ensures res == if max >= PAGE then -EINVARG else if !HasFit(old(k.Table()), 1) then -ENOMEM else 0
    ensures res != 0 ==> k.mem == old(k.mem)
    ensures res == 0 ==> StringDelivered(old(k.mem), dir, virtual, max, phys, Scratch(old(k.Table())), k.mem)
    ensures res == 0 ==> exists n: nat :: TextAt(old(k.mem), dir, virtual, max, k.mem, phys, n)
  {
    hide TextAt;
    hide SlotAddr; hide EntryOf; hide TableAddr; hide Phys; hide Copied; hide SourceClear;
    hide OwnsPage; hide StringDelivered; hide CallClear; hide SameOutside; hide CopyClear;
    if max >= PAGE {
      return -EINVARG;
    }
    ghost var t, m := k.Table(), k.mem;
    FirstFitOfOne(t);
    assert Blocks(max) == 1;
    var tmp := k.Kzalloc(max);
    if tmp == 0 {
      return -ENOMEM;
    }
    ghost var m1 := k.mem;
    ZeroedOutside(m, tmp, max);
    MapScratch(t, m, dir, chunk, tmp, m1);
    var oldEntry := k.PagingGet(dir, tmp);
    res := k.PagingMap(dir, tmp, tmp, USER_RW);
    ghost var m2 := k.mem;
    ScratchReads(m, m2, dir, virtual, phys, max, tmp);
    Strncpy(k, TaskSpace(dir), tmp, virtual, max, tmp);
    ghost var m3 := k.mem;
    Unmapped(m, m2, m3, dir, tmp, virtual, CutLen(m2, TaskSpace(dir), virtual, 0, max - 1));
    res := k.PagingSet(dir, tmp, oldEntry);
    ghost var m4 := k.mem;
    if res < 0 {
      res := -EIO;
    } else {
      ScratchHolds(m, dir, virtual, max, phys, tmp, m2, m3, m4);
      KernelLands(m, m4, dir, virtual, phys, max, tmp);
      Strncpy(k, KernelSpace, phys, tmp, max, phys);
    }
    Delivered(m, dir, virtual, max, phys, tmp, m2, m3, m4, k.mem);
    DeliveredKeepsMap(m, dir, virtual, max, phys, tmp, k.mem);
    DeliveredText(m, dir, virtual, max, phys, tmp, k.mem);
    FreeUndoesMark(t, FirstFit(t, 1), 1);
    k.Kfree(tmp);
  }

  lemma ScratchReads(m: Mem, m2: Mem, dir: PageAddr, src: Word, phys: Word, max: nat, tmp: PageAddr)
    requires 1 <= max < PAGE && ScratchMapped(m, m2, dir, tmp) && CallClear(m, dir, src, phys, max, tmp)
    requires !OwnsPage(m, dir, tmp)
    ensures CopyClear(m2, TaskSpace(dir), tmp, src, max, tmp)
  {
    hide ScratchMapped; hide CallClear; hide LandsAt; hide ReadsOutside; hide ClearOfTables;
    StringSame(m, m2, dir, src, phys, max, tmp);
    ScratchLands(m, m2, dir, tmp, CutLen(m, TaskSpace(dir), src, 0, max - 1) + 1);
  }
}
