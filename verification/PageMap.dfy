/**
 The 32-bit two-level page tables of paging.c as a value: a directory of 1024 words in one page,
 each naming a table of 1024 words in another, and the flat map from 2^20 page numbers
 to entries that the two levels stand for.
 */
module PageMap {
  import opened Bits
  import opened Memory

  const PAGE: nat := 4096
  const TABLE_LEN: nat := 1024
  const PAGES: nat := 0x10_0000

  const PRESENT: nat := 1
  const WRITEABLE: nat := 2
  const ACCESS_FROM_ALL: nat := 4

  /** A total map from page numbers to entries. */
  type FlatMap = f: seq<Word> | |f| == 0x10_0000
    ghost witness seq(0x10_0000, _ => 0)

  // ----- Index arithmetic -----

  function DirectoryIndex(virt: Word): nat { virt / (TABLE_LEN * PAGE) }
  function TableIndex(virt: Word): nat { virt % (TABLE_LEN * PAGE) / PAGE }

  /** The index pair of an aligned address determines it, and every pair below 1024 is the pair of one. */
  lemma IndexBijection(virt: PageAddr, i: nat, j: nat)
    requires i < TABLE_LEN && j < TABLE_LEN
    ensures DirectoryIndex(virt) == i && TableIndex(virt) == j <==> virt == (i * TABLE_LEN + j) * PAGE
    ensures DirectoryIndex(virt) == virt / PAGE / TABLE_LEN && TableIndex(virt) == virt / PAGE % TABLE_LEN
  {
  }

  // ----- Two levels -----

  function TableAddr(m: Mem, dir: PageAddr, i: nat): PageAddr
    requires i < TABLE_LEN
  {
    Mask(ReadWord(m, dir + 4 * i))
  }

  function SlotAddr(m: Mem, dir: PageAddr, p: nat): (a: nat)
    requires p < PAGES
    ensures TableAddr(m, dir, p / TABLE_LEN) <= a <= TableAddr(m, dir, p / TABLE_LEN) + PAGE - 4
  {
    TableAddr(m, dir, p / TABLE_LEN) + 4 * (p % TABLE_LEN)
  }

  function EntryOf(m: Mem, dir: PageAddr, p: nat): Word
    requires p < PAGES
  {
    ReadWord(m, SlotAddr(m, dir, p))
  }

  ghost function Flat(m: Mem, dir: PageAddr): (f: FlatMap)
    ensures forall p :: 0 <= p < PAGES ==> f[p] == EntryOf(m, dir, p)
  {
    seq(PAGES, p requires 0 <= p < PAGES => EntryOf(m, dir, p))
  }

  /** The flat map is the walk of the hardware: bits 22 to 31 of an address choose the directory entry, bits 12 to 21
      the table entry, and bits 0 to 11 the byte. */
  lemma HardwareWalk(m: Mem, dir: PageAddr, v: Word)
    ensures var table := ReadWord(m, dir + 4 * (v / 0x40_0000)) / 0x1000 * 0x1000;
            var entry := ReadWord(m, table + 4 * (v / 0x1000 % 0x400));
            && Flat(m, dir)[v / 0x1000] == entry
            && Translate(Flat(m, dir), v) == entry / 0x1000 * 0x1000 + v % 0x1000
  {
    hide ReadWord;
    assert v / 0x1000 / 0x400 == v / 0x40_0000;
    assert Flat(m, dir)[v / 0x1000] == EntryOf(m, dir, v / 0x1000);
  }

  /** The 1025 pages of a directory are distinct. */
  ghost predicate DirOk(m: Mem, dir: PageAddr) {
    && (forall i :: 0 <= i < TABLE_LEN ==> TableAddr(m, dir, i) != dir)
    && (forall i, j :: 0 <= i < j < TABLE_LEN ==> TableAddr(m, dir, i) != TableAddr(m, dir, j))
  }

  /** Page a holds the directory or one of its tables. */
  ghost predicate OwnsPage(m: Mem, dir: PageAddr, a: PageAddr) {
    a == dir || exists i :: 0 <= i < TABLE_LEN && TableAddr(m, dir, i) == a
  }

  ghost predicate SameTables(m: Mem, n: Mem, dir: PageAddr) {
    forall i :: 0 <= i < TABLE_LEN ==> TableAddr(n, dir, i) == TableAddr(m, dir, i)
  }

  lemma SameTablesOk(m: Mem, n: Mem, dir: PageAddr)
    requires SameTables(m, n, dir)
    ensures DirOk(m, dir) <==> DirOk(n, dir)
    ensures forall a: PageAddr :: OwnsPage(m, dir, a) <==> OwnsPage(n, dir, a)
  {
    forall a: PageAddr ensures OwnsPage(m, dir, a) <==> OwnsPage(n, dir, a) {
      if i :| 0 <= i < TABLE_LEN && TableAddr(m, dir, i) == a {
        assert TableAddr(n, dir, i) == a;
      }
      if i :| 0 <= i < TABLE_LEN && TableAddr(n, dir, i) == a {
        assert TableAddr(m, dir, i) == a;
      }
    }
  }

  lemma DirectoryAgrees(m: Mem, n: Mem, dir: PageAddr)
    requires SamePage(m, n, dir)
    ensures SameTables(m, n, dir)
  {
    forall i | 0 <= i < TABLE_LEN ensures TableAddr(n, dir, i) == TableAddr(m, dir, i) {
      ReadSame(m, n, dir, i);
    }
  }

  /** A change of memory that misses the pages of a directory leaves its map alone. */
  lemma FlatFrame(m: Mem, n: Mem, dir: PageAddr)
    requires forall a: PageAddr :: OwnsPage(m, dir, a) ==> SamePage(m, n, a)
    ensures SameTables(m, n, dir) && Flat(n, dir) == Flat(m, dir)
  {
    assert OwnsPage(m, dir, dir);
    DirectoryAgrees(m, n, dir);
    forall p | 0 <= p < PAGES ensures EntryOf(n, dir, p) == EntryOf(m, dir, p) {
      var t := TableAddr(m, dir, p / TABLE_LEN);
      assert OwnsPage(m, dir, t);
      ReadSame(m, n, t, p % TABLE_LEN);
    }
  }

  /** Writing one table slot changes exactly one page of the flat map. */
  lemma SetRefinesUpdate(m: Mem, dir: PageAddr, p: nat, val: Word)
    requires DirOk(m, dir) && p < PAGES
    ensures var n := WriteWord(m, SlotAddr(m, dir, p), val);
            SameTables(m, n, dir) && Flat(n, dir) == Flat(m, dir)[p := val]
  {
    var t, slot := TableAddr(m, dir, p / TABLE_LEN), SlotAddr(m, dir, p);
    var n := WriteWord(m, slot, val);
    WriteElsewhere(m, slot, val, t, dir);
    DirectoryAgrees(m, n, dir);
    forall q | 0 <= q < PAGES ensures EntryOf(n, dir, q) == if q == p then val else EntryOf(m, dir, q) {
      SetOne(m, dir, p, val, q);
    }
  }

  lemma SameTableOtherSlot(p: nat, q: nat)
    requires p != q && p / TABLE_LEN == q / TABLE_LEN
    ensures p % TABLE_LEN != q % TABLE_LEN
  {
  }

  lemma SetOne(m: Mem, dir: PageAddr, p: nat, val: Word, q: nat)
    requires DirOk(m, dir) && p < PAGES && q < PAGES
    requires SameTables(m, WriteWord(m, SlotAddr(m, dir, p), val), dir)
    ensures EntryOf(WriteWord(m, SlotAddr(m, dir, p), val), dir, q) == if q == p then val else EntryOf(m, dir, q)
  {
    hide ReadWord; hide WriteWord; hide Mask; hide TableAddr;
    var t, slot := TableAddr(m, dir, p / TABLE_LEN), SlotAddr(m, dir, p);
    var u := TableAddr(m, dir, q / TABLE_LEN);
    if q == p {
      ReadBack(m, slot, val);
    } else if q / TABLE_LEN != p / TABLE_LEN {
      WriteElsewhere(m, slot, val, t, u);
      ReadSame(m, WriteWord(m, slot, val), u, q % TABLE_LEN);
    } else {
      SameTableOtherSlot(p, q);
      WriteOtherWord(m, t, p % TABLE_LEN, val, q % TABLE_LEN);
    }
  }

  // ----- What an entry grants -----

  predicate IsWriteable(e: Word) { e / 2 % 2 == 1 }
  predicate IsPresent(e: Word) { e % 2 == 1 }
  predicate IsUser(e: Word) { e / 4 % 2 == 1 }

  /** User mode may write through the entry: it is present, writeable and user-accessible. */
  predicate Open(e: Word) { IsPresent(e) && IsWriteable(e) && IsUser(e) }

  /** The bit tests of the hardware, as bitwise "and". */
  lemma FlagBits(e: Word)
    ensures IsPresent(e) <==> BitAnd(e, 1) != 0
    ensures IsWriteable(e) <==> BitAnd(e, 2) != 0
    ensures IsUser(e) <==> BitAnd(e, 4) != 0
    ensures Open(e) <==> IsPresent(e) && IsWriteable(e) && IsUser(e)
  {
    assert BitAnd(e / 2, 1) == if e / 2 % 2 == 1 then 1 else 0;
    assert BitAnd(e / 4, 1) == if e / 4 % 2 == 1 then 1 else 0;
    AndEven(e, 1);
    AndEven(e, 2);
    AndEven(e / 2, 1);
  }

  /** What an entry made of a frame and three flag bits says. */
  lemma TagGrants(frame: PageAddr, flags: Word)
    requires flags < 8
    ensures Mask(Tag(frame, flags)) == frame
    ensures IsWriteable(Tag(frame, flags)) <==> flags / 2 % 2 == 1
    ensures IsPresent(Tag(frame, flags)) <==> flags % 2 == 1
    ensures IsUser(Tag(frame, flags)) <==> flags / 4 % 2 == 1
  {
    var k := frame / 4096;
    PageMultiple(frame);
    assert Tag(frame, flags) == 4096 * k + flags;
    ModUnique(4096 * k + flags, 4096, k, flags);
    LowBits(k, flags);
  }

  lemma PageMultiple(frame: PageAddr)
    ensures frame == 4096 * (frame / 4096)
  {
  }

  lemma LowBits(k: nat, flags: nat)
    requires flags < 8
    ensures (4096 * k + flags) % 2 == flags % 2
    ensures (4096 * k + flags) / 2 % 2 == flags / 2 % 2
    ensures (4096 * k + flags) / 4 % 2 == flags / 4 % 2
  {
    var e := 4096 * k + flags;
    ModUnique(e, 2, 2048 * k + flags / 2, flags % 2);
    ModUnique(e / 2, 2, 1024 * k + flags / 4, flags / 2 % 2);
    ModUnique(e, 4, 1024 * k + flags / 4, flags % 4);
    ModUnique(e / 4, 2, 512 * k, flags / 4);
  }

  /** The low bits 7 are present, writeable and user-accessible. */
  lemma OpenFlags(e: Word)
    requires e % 4096 == 7
    ensures Open(e)
  {
    LowBits(e / 4096, 7);
  }

  /** paging_get_physical_address on the flat map. */
  function Translate(f: FlatMap, virt: Word): Word {
    Mask(f[virt / PAGE]) + virt % PAGE
  }

  /** A translated address lies in the frame of its entry. */
  lemma TranslateInFrame(f: FlatMap, virt: Word)
    ensures Mask(Translate(f, virt)) == Mask(f[virt / PAGE])
  {
    var frame: PageAddr, d: nat := Mask(f[virt / PAGE]), virt % PAGE;
    PageMultiple(frame);
    ModUnique(frame + d, 4096, frame / 4096, d);
  }

  /** count pages from page on (modulo 2^20) mapped to the frames from addr on. */
  ghost function Mapped(f: FlatMap, page: nat, addr: PageAddr, count: nat, flags: Word): (g: FlatMap)
    requires addr + count * PAGE <= WORD_LIMIT
  {
    var g: seq<Word> := seq(PAGES, q requires 0 <= q < PAGES => MappedEntry(f, page, addr, count, flags, q));
    g
  }

  ghost function MappedEntry(f: FlatMap, page: nat, addr: PageAddr, count: nat, flags: Word, q: nat): Word
    requires addr + count * PAGE <= WORD_LIMIT && q < PAGES
  {
    var k := (q - page) % PAGES;
    if k < count then Tag(addr + k * PAGE, flags) else f[q]
  }

  /** A mapped range that does not wrap, page by page. */
  lemma MappedAt(f: FlatMap, page: nat, addr: PageAddr, count: nat, flags: Word, v: nat)
    requires addr + count * PAGE <= WORD_LIMIT && page + count <= PAGES && v < PAGES
    ensures Mapped(f, page, addr, count, flags)[v] ==
            if page <= v < page + count then Tag(addr + (v - page) * PAGE, flags) else f[v]
  {
    assert (v - page) % PAGES == if v >= page then v - page else v - page + PAGES;
  }

  lemma MappedZero(f: FlatMap, page: nat, addr: PageAddr, flags: Word)
    ensures Mapped(f, page, addr, 0, flags) == f
  {
  }

  /** Range mapping: the k-th byte of the range leads to the k-th byte of the frames, with the given flags, also
      across the top of the address space; pages outside the range keep their entries. */
  lemma RangeMapping(f: FlatMap, virt: PageAddr, addr: PageAddr, count: nat, flags: Word, k: nat)
    requires addr + count * PAGE <= WORD_LIMIT && k < count * PAGE && flags < 4096 && count <= PAGES
    ensures var g, v := Mapped(f, virt / PAGE, addr, count, flags), (virt + k) % WORD_LIMIT;
            Translate(g, v) == addr + k && g[v / PAGE] % 4096 == flags
    ensures forall q :: 0 <= q < PAGES && (q - virt / PAGE) % PAGES >= count ==>
              Mapped(f, virt / PAGE, addr, count, flags)[q] == f[q]
  {
    hide Translate;
    var p, j := virt / PAGE, k / PAGE;
    var g, v := Mapped(f, p, addr, count, flags), (virt + k) % WORD_LIMIT;
    assert v / PAGE == (p + j) % PAGES && v % PAGE == k % PAGE by { WrapByte(virt, k); }
    assert ((p + j) % PAGES - p) % PAGES == j by { WrapBack(p, j); }
    var frame := addr + j * PAGE;
    assert g[v / PAGE] == Tag(frame, flags);
    TagByte(g, v, frame, flags);
  }

  /** n bytes from virt on lead to those from phys on, and user mode may write them. */
  ghost predicate MapsOpen(f: FlatMap, virt: Word, phys: Word, n: nat) {
    forall v: Word :: virt <= v < virt + n ==> Translate(f, v) == phys + (v - virt) && Open(f[v / PAGE])
  }

  lemma RangeOpen(f: FlatMap, virt: PageAddr, phys: PageAddr, count: nat, n: nat)
    requires phys + count * PAGE <= WORD_LIMIT && n <= count * PAGE && virt + n <= WORD_LIMIT
    ensures MapsOpen(Mapped(f, virt / PAGE, phys, count, 7), virt, phys, n)
  {
    hide Mapped; hide Translate; hide Open;
    var g := Mapped(f, virt / PAGE, phys, count, 7);
    forall v: Word | virt <= v < virt + n ensures Translate(g, v) == phys + (v - virt) && Open(g[v / PAGE]) {
      RangeMapping(f, virt, phys, count, 7, v - virt);
      OpenFlags(g[v / PAGE]);
    }
  }

  lemma TagByte(g: FlatMap, v: Word, frame: PageAddr, flags: Word)
    requires flags < 4096 && g[v / PAGE] == Tag(frame, flags)
    ensures Translate(g, v) == frame + v % PAGE && g[v / PAGE] % 4096 == flags
  {
    PageMultiple(frame);
    ModUnique(frame + flags, 4096, frame / 4096, flags);
  }

  lemma WrapByte(virt: PageAddr, k: nat)
    requires k < WORD_LIMIT
    ensures (virt + k) % WORD_LIMIT / PAGE == (virt / PAGE + k / PAGE) % PAGES
    ensures (virt + k) % WORD_LIMIT % PAGE == k % PAGE
  {
    var p, j, r := virt / PAGE, k / PAGE, k % PAGE;
    var x := if p + j < PAGES then p + j else p + j - PAGES;
    var v := x * PAGE + r;
    assert virt + k == if p + j < PAGES then v else v + WORD_LIMIT;
    assert (virt + k) % WORD_LIMIT == v by {
      ModUnique(virt + k, WORD_LIMIT, if p + j < PAGES then 0 else 1, v);
    }
    assert (p + j) % PAGES == x by { ModUnique(p + j, PAGES, if p + j < PAGES then 0 else 1, x); }
    ModUnique(v, PAGE, x, r);
  }

  lemma WrapBack(p: nat, j: nat)
    requires p < PAGES && j < PAGES
    ensures ((p + j) % PAGES - p) % PAGES == j
  {
  }

  /** One more page of a range is one more update. */
  lemma MappedExtend(f: FlatMap, page: nat, addr: PageAddr, count: nat, flags: Word)
    requires count < PAGES && addr + (count + 1) * PAGE <= WORD_LIMIT
    ensures Mapped(f, page, addr, count + 1, flags)
         == Mapped(f, page, addr, count, flags)[(page + count) % PAGES := Tag(addr + count * PAGE, flags)]
  {
    var g, h := Mapped(f, page, addr, count, flags), Mapped(f, page, addr, count + 1, flags);
    var s := (page + count) % PAGES;
    forall q | 0 <= q < PAGES ensures h[q] == g[s := Tag(addr + count * PAGE, flags)][q] {
      assert (q - page) % PAGES == count <==> q == s;
    }
  }

  // ----- Calls of paging_map_to -----

  /** What one call of paging_map_to maps: count pages from page on, modulo 2^20, to the frames from phys on. */
  datatype Range = Range(page: nat, phys: PageAddr, count: nat, flags: Word)
  {
    predicate Fits() { page < PAGES && phys + count * PAGE <= WORD_LIMIT }

    predicate Contains(v: int) { (v - page) % PAGES < count }

    /** The entry that the call writes for page v. */
    function Entry(v: int): Word
      requires Fits() && Contains(v)
    {
      Tag(phys + (v - page) % PAGES * PAGE, flags)
    }

    ghost function Apply(f: FlatMap): FlatMap
      requires Fits()
    {
      Mapped(f, page, phys, count, flags)
    }
  }

  ghost predicate AllFit(ranges: seq<Range>) {
    forall i :: 0 <= i < |ranges| ==> ranges[i].Fits()
  }

  /** The map after all the calls, in order. */
  ghost function ApplyAll(f: FlatMap, ranges: seq<Range>): FlatMap
    requires AllFit(ranges)
  {
    if ranges == [] then f else ranges[|ranges| - 1].Apply(ApplyAll(f, ranges[..|ranges| - 1]))
  }

  lemma ApplyOneMore(f: FlatMap, ranges: seq<Range>, r: Range)
    requires AllFit(ranges) && r.Fits()
    ensures AllFit(ranges + [r]) && ApplyAll(f, ranges + [r]) == r.Apply(ApplyAll(f, ranges))
  {
    assert (ranges + [r])[..|ranges|] == ranges;
  }

  /** Call i is the last that maps page v. */
  predicate Decides(ranges: seq<Range>, i: int, v: int) {
    && 0 <= i < |ranges| && ranges[i].Contains(v)
    && forall j :: i < j < |ranges| ==> !ranges[j].Contains(v)
  }

  lemma ApplyAt(f: FlatMap, r: Range, v: nat)
    requires r.Fits() && v < PAGES
    ensures r.Apply(f)[v] == if r.Contains(v) then r.Entry(v) else f[v]
  {
    hide Tag;
    assert r.Apply(f)[v] == MappedEntry(f, r.page, r.phys, r.count, r.flags, v);
  }

  /** A page that some call maps has the entry of the last one; any other page keeps its entry. */
  lemma {:induction false} AppliedAt(f: FlatMap, ranges: seq<Range>, v: nat)
    requires AllFit(ranges) && v < PAGES
    ensures forall i :: Decides(ranges, i, v) ==> ApplyAll(f, ranges)[v] == ranges[i].Entry(v)
    ensures ApplyAll(f, ranges)[v] == f[v] || exists i :: Decides(ranges, i, v)
    decreases |ranges|
  {
    hide Range.Apply; hide Range.Entry; hide Range.Contains; hide Mapped;
    if ranges != [] {
      var n := |ranges| - 1;
      AppliedAt(f, ranges[..n], v);
      ApplyAt(ApplyAll(f, ranges[..n]), ranges[n], v);
      if ranges[n].Contains(v) {
        assert Decides(ranges, n, v);
      } else {
        forall i ensures Decides(ranges, i, v) <==> Decides(ranges[..n], i, v) {
        }
      }
    }
  }
}
