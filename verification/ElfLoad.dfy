/**
 process_map_memory: mapping the program headers of a loaded ELF file, or a flat binary, and the stack.
 */
module ElfLoad {
  import opened Bits
  import opened Memory
  import opened KernelHeap
  import opened PageMap
  import opened Kernel
  import opened BlockTable
  import opened Processes
  import opened Status
  import I = Isolation

  const PHDR_SIZE: nat := 32
  const PF_W: nat := 2

  const PROGRAM_ADDRESS: Word := 0x400000
  const STACK_SIZE: nat := 1024 * 16
  const STACK_BOTTOM: Word := 0x3FB000

  /** The fields of elf32_phdr that the mapping reads. */
  datatype Phdr = Phdr(offset: Word, vaddr: Word, memsz: Word, flags: Word)

  function PhdrOffset(m: Mem, elf: PageAddr): Word { ReadWord(m, elf + 28) }
  function PhdrCount(m: Mem, elf: PageAddr): nat { var lo: int, hi: int := m[elf + 44], m[elf + 45]; lo + 256 * hi }

  /** elf_program_header(header, i). */
  function PhdrAt(m: Mem, a: nat): Phdr
    requires a + PHDR_SIZE <= WORD_LIMIT
  {
    Phdr(ReadWord(m, a + 4), ReadWord(m, a + 8), ReadWord(m, a + 20), ReadWord(m, a + 24))
  }

  /** There is a program header table, as elf_validate_loaded checks, and it lies in memory. */
  ghost predicate HeadersInMemory(m: Mem, elf: PageAddr) {
    PhdrOffset(m, elf) != 0 && elf + PhdrOffset(m, elf) + PHDR_SIZE * PhdrCount(m, elf) <= WORD_LIMIT
  }

  ghost function Headers(m: Mem, elf: PageAddr): (hs: seq<Phdr>)
    requires HeadersInMemory(m, elf)
    ensures |hs| == PhdrCount(m, elf)
    ensures forall i :: 0 <= i < |hs| ==> hs[i] == PhdrAt(m, elf + PhdrOffset(m, elf) + PHDR_SIZE * i)
  {
    seq(PhdrCount(m, elf), i requires 0 <= i < PhdrCount(m, elf) => PhdrAt(m, elf + PhdrOffset(m, elf) + PHDR_SIZE * i))
  }

  // ----- One segment -----

  /** elf_phdr_phys_address. */
  function SegPhys(elf: PageAddr, ph: Phdr): Word { (elf + ph.offset) % WORD_LIMIT }

  function SegEnd(elf: PageAddr, ph: Phdr): Word { AlignAddress((SegPhys(elf, ph) + ph.memsz) % WORD_LIMIT) }

  function SegFlags(ph: Phdr): Word {
    if BitAnd(ph.flags, PF_W) != 0 then PRESENT + ACCESS_FROM_ALL + WRITEABLE else PRESENT + ACCESS_FROM_ALL
  }

  /** paging_map_to accepts the segment. */
  predicate SegAccepted(elf: PageAddr, ph: Phdr) { Mask(SegPhys(elf, ph)) <= SegEnd(elf, ph) }

  function SegPages(elf: PageAddr, ph: Phdr): int { (SegEnd(elf, ph) - Mask(SegPhys(elf, ph))) / PAGE }

  lemma EndAligned(x: Word)
    ensures AlignAddress(x) % PAGE == 0
    ensures x <= WORD_LIMIT - PAGE ==> x <= AlignAddress(x) < x + PAGE
  {
  }

  ghost function SegMapped(f: FlatMap, elf: PageAddr, ph: Phdr): FlatMap
    requires SegAccepted(elf, ph)
  {
    EndAligned((SegPhys(elf, ph) + ph.memsz) % WORD_LIMIT);
    Mapped(f, ph.vaddr / PAGE, Mask(SegPhys(elf, ph)), SegPages(elf, ph), SegFlags(ph))
  }

  /** The call of paging_map_to for an accepted header. */
  function SegRange(elf: PageAddr, ph: Phdr): (r: Range)
    requires SegAccepted(elf, ph)
    ensures r.Fits()
  {
    EndAligned((SegPhys(elf, ph) + ph.memsz) % WORD_LIMIT);
    Range(ph.vaddr / PAGE, Mask(SegPhys(elf, ph)), SegPages(elf, ph), SegFlags(ph))
  }

  /** The first n headers mapped in order. */
  ghost function ElfMapped(f: FlatMap, elf: PageAddr, hs: seq<Phdr>, n: nat): FlatMap
    requires n <= |hs| && forall i :: 0 <= i < n ==> SegAccepted(elf, hs[i])
  {
    if n == 0 then f else SegMapped(ElfMapped(f, elf, hs, n - 1), elf, hs[n - 1])
  }

  /** The first header that paging_map_to refuses, or the number of headers. */
  function FirstRefused(elf: PageAddr, hs: seq<Phdr>): (n: nat)
    ensures n <= |hs| && (forall i :: 0 <= i < n ==> SegAccepted(elf, hs[i]))
    ensures n < |hs| ==> !SegAccepted(elf, hs[n])
  {
    if hs == [] || !SegAccepted(elf, hs[0]) then 0 else 1 + FirstRefused(elf, hs[1..])
  }

  /** The calls for the first n headers. */
  function ElfRanges(elf: PageAddr, hs: seq<Phdr>, n: nat): (rs: seq<Range>)
    requires n <= |hs| && forall i :: 0 <= i < n ==> SegAccepted(elf, hs[i])
    ensures |rs| == n && AllFit(rs)
    ensures forall i :: 0 <= i < n ==> rs[i] == SegRange(elf, hs[i])
  {
    if n == 0 then [] else ElfRanges(elf, hs, n - 1) + [SegRange(elf, hs[n - 1])]
  }

  lemma SegMappedIsApplied(f: FlatMap, elf: PageAddr, ph: Phdr)
    requires SegAccepted(elf, ph)
    ensures SegMapped(f, elf, ph) == SegRange(elf, ph).Apply(f)
  {
  }

  lemma {:induction false} ElfMappedIsApplied(f: FlatMap, elf: PageAddr, hs: seq<Phdr>, n: nat)
    requires n <= |hs| && forall i :: 0 <= i < n ==> SegAccepted(elf, hs[i])
    ensures ElfMapped(f, elf, hs, n) == ApplyAll(f, ElfRanges(elf, hs, n))
  {
    hide SegAccepted; hide SegMapped; hide SegRange;
    if n > 0 {
      SegMappedIsApplied(ElfMapped(f, elf, hs, n - 1), elf, hs[n - 1]);
      ElfMappedIsApplied(f, elf, hs, n - 1);
      ApplyOneMore(f, ElfRanges(elf, hs, n - 1), SegRange(elf, hs[n - 1]));
    }
  }

  // ----- The load is right -----

  /** Nothing about the segment wraps around. */
  predicate SegFits(elf: PageAddr, ph: Phdr) {
    && elf + ph.offset + ph.memsz <= WORD_LIMIT - PAGE
    && ph.vaddr + ph.memsz <= WORD_LIMIT
    && ph.vaddr / PAGE + SegPages(elf, ph) <= PAGES
  }

  predicate InSeg(elf: PageAddr, ph: Phdr, page: int) {
    ph.vaddr / PAGE <= page < ph.vaddr / PAGE + SegPages(elf, ph)
  }

  /** No page is mapped by two headers. */
  ghost predicate SegsDisjoint(elf: PageAddr, hs: seq<Phdr>) {
    forall i, j, page: int :: 0 <= i < j < |hs| && InSeg(elf, hs[i], page) ==> !InSeg(elf, hs[j], page)
  }

  /** The segment appears at its virtual addresses, with its permissions. */
  ghost predicate SegLoaded(f: FlatMap, elf: PageAddr, ph: Phdr) {
    forall v: Word :: ph.vaddr <= v < ph.vaddr + ph.memsz ==> ByteLoaded(f, elf, ph, v)
  }

  ghost predicate ByteLoaded(f: FlatMap, elf: PageAddr, ph: Phdr, v: Word) {
    && Translate(f, v) == elf + ph.offset + (v - ph.vaddr)
    && IsPresent(f[v / PAGE]) && IsUser(f[v / PAGE])
    && (IsWriteable(f[v / PAGE]) <==> BitAnd(ph.flags, 2) != 0)
  }

  lemma FitsAccepted(elf: PageAddr, ph: Phdr)
    requires elf + ph.offset + ph.memsz <= WORD_LIMIT - PAGE
    ensures SegPhys(elf, ph) == elf + ph.offset && SegAccepted(elf, ph) && SegPages(elf, ph) >= 0
    ensures SegEnd(elf, ph) == Mask(SegPhys(elf, ph)) + SegPages(elf, ph) * PAGE
    ensures elf + ph.offset + ph.memsz <= SegEnd(elf, ph)
    ensures ph.memsz >= 1 ==> SegPages(elf, ph) >= 1
  {
    hide AlignAddress;
    var phys: Word := elf + ph.offset;
    assert SegPhys(elf, ph) == phys;
    EndAligned(phys + ph.memsz);
    WholePages(SegEnd(elf, ph), Mask(phys));
  }

  lemma WholePages(a: PageAddr, b: PageAddr)
    requires b <= a
    ensures (a - b) / PAGE * PAGE == a - b
  {
  }

  /** The entry of a page after all headers: the one header that covers it decides. */
  lemma {:induction false} PageOwner(f: FlatMap, elf: PageAddr, hs: seq<Phdr>, n: nat, page: nat, i: nat)
    requires n <= |hs| && page < PAGES
    requires forall j :: 0 <= j < n ==> SegFits(elf, hs[j]) && SegAccepted(elf, hs[j])
    requires forall j :: 0 <= j < n && j != i ==> !InSeg(elf, hs[j], page)
    ensures ElfMapped(f, elf, hs, n)[page] ==
            if i < n && InSeg(elf, hs[i], page)
            then Tag(Mask(SegPhys(elf, hs[i])) + (page - hs[i].vaddr / PAGE) * PAGE, SegFlags(hs[i]))
            else f[page]
  {
    if n > 0 {
      var ph := hs[n - 1];
      FitsAccepted(elf, ph);
      PageOwner(f, elf, hs, n - 1, page, i);
      MappedAt(ElfMapped(f, elf, hs, n - 1), ph.vaddr / PAGE, Mask(SegPhys(elf, ph)), SegPages(elf, ph), SegFlags(ph),
          page);
    }
  }

  /** A page mapped for a segment leads to the segment's bytes exactly when file offset and address agree
      modulo a page. */
  lemma SegByte(f: FlatMap, elf: PageAddr, ph: Phdr, v: Word)
    requires SegFits(elf, ph) && SegAccepted(elf, ph) && ph.vaddr <= v < ph.vaddr + ph.memsz
    requires ph.vaddr % PAGE == ph.offset % PAGE || v == ph.vaddr
    requires InSeg(elf, ph, v / PAGE)
    requires f[v / PAGE] == Tag(Mask(SegPhys(elf, ph)) + (v / PAGE - ph.vaddr / PAGE) * PAGE, SegFlags(ph))
    ensures ByteLoaded(f, elf, ph, v) <==> ph.vaddr % PAGE == ph.offset % PAGE
  {
    hide Tag; hide SegEnd; hide IsWriteable; hide IsPresent; hide IsUser; hide SegAccepted;
    FitsAccepted(elf, ph);
    var frame := Mask(SegPhys(elf, ph)) + (v / PAGE - ph.vaddr / PAGE) * PAGE;
    TagGrants(frame, SegFlags(ph));
    OffsetInPage(elf, ph.offset);
    assert Translate(f, v) == frame + v % PAGE;
    assert v == v / PAGE * PAGE + v % PAGE;
    assert ph.vaddr == ph.vaddr / PAGE * PAGE + ph.vaddr % PAGE;
  }

  lemma OffsetInPage(elf: PageAddr, offset: nat)
    ensures (elf + offset) % PAGE == offset % PAGE
  {
    var k := elf / PAGE;
    assert elf == k * PAGE;
    ModUnique(elf + offset, PAGE, k + offset / PAGE, offset % PAGE);
  }

  /** Every address of a congruent segment lies in the pages mapped for it; its first address always does. */
  lemma SegCovered(elf: PageAddr, ph: Phdr, v: Word)
    requires SegFits(elf, ph) && ph.vaddr <= v < ph.vaddr + ph.memsz
    requires ph.vaddr % PAGE == ph.offset % PAGE || v == ph.vaddr
    ensures InSeg(elf, ph, v / PAGE)
  {
    FitsAccepted(elf, ph);
    OffsetInPage(elf, ph.offset);
    if v != ph.vaddr {
      var d := v / PAGE - ph.vaddr / PAGE;
      assert v == v / PAGE * PAGE + v % PAGE && ph.vaddr == ph.vaddr / PAGE * PAGE + ph.vaddr % PAGE;
      assert d * PAGE < ph.vaddr % PAGE + ph.memsz;
      assert SegPages(elf, ph) * PAGE >= ph.vaddr % PAGE + ph.memsz;
    }
  }

  lemma ByteIffCongruent(f: FlatMap, elf: PageAddr, hs: seq<Phdr>, i: nat, v: Word)
    requires i < |hs| && SegsDisjoint(elf, hs)
    requires forall j :: 0 <= j < |hs| ==> SegFits(elf, hs[j]) && SegAccepted(elf, hs[j])
    requires hs[i].vaddr <= v < hs[i].vaddr + hs[i].memsz
    requires hs[i].vaddr % PAGE == hs[i].offset % PAGE || v == hs[i].vaddr
    ensures ByteLoaded(ElfMapped(f, elf, hs, |hs|), elf, hs[i], v) <==> hs[i].vaddr % PAGE == hs[i].offset % PAGE
  {
    hide ByteLoaded; hide ElfMapped; hide SegAccepted; hide SegFits; hide Tag; hide Mask; hide SegPhys; hide SegFlags;
    SegCovered(elf, hs[i], v);
    PageOwner(f, elf, hs, |hs|, v / PAGE, i);
    SegByte(ElfMapped(f, elf, hs, |hs|), elf, hs[i], v);
  }

  /** After the headers are mapped, segment i is loaded exactly when its p_vaddr is congruent to its p_offset modulo
      4096. */
  lemma SegLoadedIffCongruent(f: FlatMap, elf: PageAddr, hs: seq<Phdr>, i: nat)
    requires i < |hs| && hs[i].memsz >= 1 && SegsDisjoint(elf, hs)
    requires forall j :: 0 <= j < |hs| ==> SegFits(elf, hs[j]) && SegAccepted(elf, hs[j])
    ensures SegLoaded(ElfMapped(f, elf, hs, |hs|), elf, hs[i]) <==> hs[i].vaddr % PAGE == hs[i].offset % PAGE
  {
    hide ByteLoaded; hide SegAccepted; hide SegFits; hide ElfMapped; hide SegsDisjoint;
    var g, ph := ElfMapped(f, elf, hs, |hs|), hs[i];
    if ph.vaddr % PAGE == ph.offset % PAGE {
      forall v: Word | ph.vaddr <= v < ph.vaddr + ph.memsz ensures ByteLoaded(g, elf, ph, v) {
        ByteIffCongruent(f, elf, hs, i, v);
      }
    } else {
      ByteIffCongruent(f, elf, hs, i, ph.vaddr);
    }
  }

  /** Pages that no header covers keep their entries. */
  lemma OutsideSegments(f: FlatMap, elf: PageAddr, hs: seq<Phdr>, page: nat)
    requires page < PAGES
    requires forall j :: 0 <= j < |hs| ==> SegFits(elf, hs[j]) && SegAccepted(elf, hs[j]) && !InSeg(elf, hs[j], page)
    ensures ElfMapped(f, elf, hs, |hs|)[page] == f[page]
  {
    PageOwner(f, elf, hs, |hs|, page, |hs|);
  }

  // ----- The stack -----

  function StackRange(stack: PageAddr): (r: Range)
    requires stack + STACK_SIZE < WORD_LIMIT
    ensures r.Fits()
  {
    Range(STACK_BOTTOM / PAGE, stack, STACK_SIZE / PAGE, USER_RW)
  }

  /** The 16 KB below 0x3FF000 become the stack. */
  lemma StackMapped(f: FlatMap, stack: PageAddr)
    requires stack + STACK_SIZE < WORD_LIMIT
    ensures MapsOpen(StackRange(stack).Apply(f), 0x3FB000, stack, 0x4000)
  {
    hide Mapped; hide MapsOpen;
    RangeOpen(f, 0x3FB000, stack, 4, 0x4000);
  }

  /** The stack is mapped, and no segment at or above 0x400000 is disturbed. */
  lemma StackIsolated(f: FlatMap, stack: PageAddr, elf: PageAddr, ph: Phdr)
    requires stack + STACK_SIZE < WORD_LIMIT
    requires ph.vaddr >= PROGRAM_ADDRESS && SegLoaded(f, elf, ph)
    ensures SegLoaded(StackRange(stack).Apply(f), elf, ph)
    ensures MapsOpen(StackRange(stack).Apply(f), 0x3FB000, stack, 0x4000)
  {
    hide MapsOpen; hide IsWriteable; hide IsPresent; hide IsUser;
    StackMapped(f, stack);
    var g := StackRange(stack).Apply(f);
    forall v: Word | ph.vaddr <= v < ph.vaddr + ph.memsz ensures ByteLoaded(g, elf, ph, v) {
      MappedAt(f, STACK_BOTTOM / PAGE, stack, STACK_SIZE / PAGE, USER_RW, v / PAGE);
      assert ByteLoaded(f, elf, ph, v);
    }
  }

  // ----- The whole load -----

  /** The end of the bytes that process_map_elf reads. */
  function HeadersEnd(m: Mem, elf: PageAddr): nat {
    var end := elf + PhdrOffset(m, elf) + PHDR_SIZE * PhdrCount(m, elf);
    if end < elf + 52 then elf + 52 else end
  }

  /** The pages of the ELF header and the program headers are not tables of dir. */
  ghost predicate HeadersApart(m: Mem, dir: PageAddr, elf: PageAddr) {
    HeadersInMemory(m, elf) &&
    forall a: PageAddr :: OwnsPage(m, dir, a) ==> a + PAGE <= elf || a >= HeadersEnd(m, elf)
  }

  datatype FileType = Elf(elf: PageAddr) | Binary(ptr: PageAddr, size: Word)
  {
    /** What the source assumes of the file in memory: a flat binary does not reach the top of memory, and the headers
        of an ELF file are not themselves page tables of the directory. */
    ghost predicate Readable(m: Mem, dir: PageAddr) {
      if Elf? then HeadersApart(m, dir, elf) else ptr + size <= WORD_LIMIT - PAGE
    }

    /** Whether every program header is accepted. */
    ghost predicate Accepted(m: Mem) {
      Elf? && HeadersInMemory(m, elf) ==> FirstRefused(elf, Headers(m, elf)) == |Headers(m, elf)|
    }
  }

  function BinaryRange(ptr: PageAddr, size: Word): (r: Range)
    requires ptr + size <= WORD_LIMIT - PAGE
    ensures r.Fits()
  {
    EndAligned(ptr + size);
    Range(PROGRAM_ADDRESS / PAGE, ptr, (AlignAddress(ptr + size) - ptr) / PAGE, USER_RW)
  }

  /** The calls of paging_map_to that process_map_memory makes and that succeed. */
  ghost function LoadRanges(m: Mem, dir: PageAddr, file: FileType, stack: PageAddr): (rs: seq<Range>)
    requires file.Readable(m, dir) && stack + STACK_SIZE < WORD_LIMIT
    ensures AllFit(rs)
  {
    match file
    case Elf(elf) =>
      var hs := Headers(m, elf);
      var rs := ElfRanges(elf, hs, FirstRefused(elf, hs));
      if file.Accepted(m) then rs + [StackRange(stack)] else rs
    case Binary(ptr, size) => [BinaryRange(ptr, size), StackRange(stack)]
  }

  lemma ApplyNone(f: FlatMap)
    ensures ApplyAll(f, []) == f
  {
  }

  /** The map after process_map_memory of an ELF file whose headers are all accepted. */
  lemma ElfThenStack(f: FlatMap, m: Mem, dir: PageAddr, elf: PageAddr, stack: PageAddr)
    requires HeadersApart(m, dir, elf) && stack + STACK_SIZE < WORD_LIMIT && Elf(elf).Accepted(m)
    ensures var hs := Headers(m, elf);
            && (forall i :: 0 <= i < |hs| ==> SegAccepted(elf, hs[i]))
            && ApplyAll(f, LoadRanges(m, dir, Elf(elf), stack)) == StackRange(stack).Apply(ElfMapped(f, elf, hs, |hs|))
  {
    var hs := Headers(m, elf);
    ElfMappedIsApplied(f, elf, hs, |hs|);
    ApplyOneMore(f, ElfRanges(elf, hs, |hs|), StackRange(stack));
  }

  /** Every header is accepted, congruent and at or above 0x400000, nothing wraps, and no page is mapped by two. */
  ghost predicate WellFormed(elf: PageAddr, hs: seq<Phdr>) {
    SegsDisjoint(elf, hs) &&
    forall j :: 0 <= j < |hs| ==>
      && SegFits(elf, hs[j]) && SegAccepted(elf, hs[j])
      && hs[j].vaddr >= PROGRAM_ADDRESS && hs[j].vaddr % PAGE == hs[j].offset % PAGE
  }

  /** The whole of process_map_memory for a well-formed ELF file: all its segments are loaded, and the stack. */
  lemma ProgramLoaded(f: FlatMap, m: Mem, dir: PageAddr, elf: PageAddr, stack: PageAddr)
    requires HeadersApart(m, dir, elf) && stack + STACK_SIZE < WORD_LIMIT && WellFormed(elf, Headers(m, elf))
    ensures var g, hs := ApplyAll(f, LoadRanges(m, dir, Elf(elf), stack)), Headers(m, elf);
            && (forall j :: 0 <= j < |hs| ==> SegLoaded(g, elf, hs[j]))
            && MapsOpen(g, 0x3FB000, stack, 0x4000)
  {
    hide SegLoaded; hide LoadRanges; hide Headers; hide MapsOpen;
    var hs := Headers(m, elf);
    ElfThenStack(f, m, dir, elf, stack);
    var e := ElfMapped(f, elf, hs, |hs|);
    forall j | 0 <= j < |hs| ensures SegLoaded(StackRange(stack).Apply(e), elf, hs[j]) {
      SegmentLoaded(f, elf, hs, j);
      StackIsolated(e, stack, elf, hs[j]);
    }
    StackMapped(e, stack);
  }

  /** Whatever the headers, the stack is mapped last. */
  lemma StackLast(f: FlatMap, m: Mem, dir: PageAddr, elf: PageAddr, stack: PageAddr)
    requires HeadersApart(m, dir, elf) && stack + STACK_SIZE < WORD_LIMIT && Elf(elf).Accepted(m)
    ensures MapsOpen(ApplyAll(f, LoadRanges(m, dir, Elf(elf), stack)), 0x3FB000, stack, 0x4000)
  {
    hide LoadRanges; hide MapsOpen; hide StackRange;
    var hs := Headers(m, elf);
    ElfThenStack(f, m, dir, elf, stack);
    StackMapped(ElfMapped(f, elf, hs, |hs|), stack);
  }

  lemma SegmentLoaded(f: FlatMap, elf: PageAddr, hs: seq<Phdr>, j: nat)
    requires j < |hs| && WellFormed(elf, hs)
    ensures SegLoaded(ElfMapped(f, elf, hs, |hs|), elf, hs[j])
  {
    if hs[j].memsz >= 1 { SegLoadedIffCongruent(f, elf, hs, j); }
  }

  /** The bytes of a flat binary appear from 0x400000 on, the process may write them, and the stack, which is mapped
      next, does not disturb them. */
  lemma BinaryLoaded(f: FlatMap, m: Mem, dir: PageAddr, ptr: PageAddr, size: Word, stack: PageAddr)
    requires ptr + size <= WORD_LIMIT - PAGE && 0x400000 + size <= WORD_LIMIT - PAGE
    requires stack + STACK_SIZE < WORD_LIMIT
    ensures var g := ApplyAll(f, LoadRanges(m, dir, Binary(ptr, size), stack));
            MapsOpen(g, 0x400000, ptr, size) && MapsOpen(g, 0x3FB000, stack, 0x4000)
  {
    hide AlignAddress; hide Mapped; hide BinaryRange; hide Open; hide Translate;
    var b, s := BinaryRange(ptr, size), StackRange(stack);
    BinaryBytes(f, ptr, size);
    BinaryThenStack(f, b, s);
    StackMapped(b.Apply(f), stack);
    AboveStays(b.Apply(f), stack, 0x400000, ptr, size);
  }

  /** What is mapped at or above 0x400000 stays so when the stack is mapped. */
  lemma AboveStays(f: FlatMap, stack: PageAddr, virt: Word, phys: Word, n: nat)
    requires stack + STACK_SIZE < WORD_LIMIT && virt >= 0x400000 && MapsOpen(f, virt, phys, n)
    ensures MapsOpen(StackRange(stack).Apply(f), virt, phys, n)
  {
    hide Open;
    forall v: Word | virt <= v < virt + n ensures StackRange(stack).Apply(f)[v / PAGE] == f[v / PAGE] {
      MappedAt(f, 0x3FB, stack, 4, 7, v / PAGE);
    }
  }

  lemma BinaryBytes(f: FlatMap, ptr: PageAddr, size: Word)
    requires ptr + size <= WORD_LIMIT - PAGE && 0x400000 + size <= WORD_LIMIT - PAGE
    ensures MapsOpen(BinaryRange(ptr, size).Apply(f), 0x400000, ptr, size)
  {
    hide AlignAddress; hide Mapped; hide MapsOpen;
    EndAligned(ptr + size);
    var n := (AlignAddress(ptr + size) - ptr) / PAGE;
    assert n * PAGE == AlignAddress(ptr + size) - ptr;
    RangeOpen(f, 0x400000, ptr, n, size);
  }

  lemma BinaryThenStack(f: FlatMap, b: Range, s: Range)
    requires b.Fits() && s.Fits()
    ensures ApplyAll(f, [b, s]) == s.Apply(b.Apply(f))
  {
    ApplyOneMore(f, [], b);
    ApplyOneMore(f, [] + [b], s);
    assert [] + [b] + [s] == [b, s];
  }

  // ----- The methods -----


  /** Mapping does not disturb the headers while they are being read. */
  lemma HeadersSame(m: Mem, n: Mem, dir: PageAddr, elf: PageAddr)
    requires HeadersApart(m, dir, elf) && OnlyTables(m, n, dir)
    ensures PhdrOffset(n, elf) == PhdrOffset(m, elf) && PhdrCount(n, elf) == PhdrCount(m, elf)
    ensures HeadersInMemory(n, elf) && Headers(n, elf) == Headers(m, elf)
  {
    forall x: nat | elf <= x < HeadersEnd(m, elf) && x < WORD_LIMIT ensures m[x] == n[x] {
      assert Mask(x) <= x < Mask(x) + PAGE;
      assert !OwnsPage(m, dir, Mask(x));
      assert SamePage(m, n, Mask(x));
    }
    forall i | 0 <= i < PhdrCount(m, elf)
      ensures PhdrAt(n, elf + PhdrOffset(m, elf) + PHDR_SIZE * i) == PhdrAt(m, elf + PhdrOffset(m, elf) + PHDR_SIZE * i)
    {
      PhdrSame(m, n, elf + PhdrOffset(m, elf) + PHDR_SIZE * i);
    }
  }

  lemma PhdrSame(m: Mem, n: Mem, a: nat)
    requires a + PHDR_SIZE <= WORD_LIMIT && forall x :: a <= x < a + PHDR_SIZE ==> m[x] == n[x]
    ensures PhdrAt(n, a) == PhdrAt(m, a)
  {
  }

  /** The body of the loop of process_map_elf. */
  method MapHeader(k: Machine, dir: PageAddr, elf: PageAddr, ph: Phdr) returns (res: int)
    requires k.Valid() && DirOk(k.mem, dir)
    modifies k`mem
    ensures k.Valid() && SameTables(old(k.mem), k.mem, dir) && OnlyTables(old(k.mem), k.mem, dir)
    ensures res == 0 <==> SegAccepted(elf, ph)
    ensures res == 0 ==> Flat(k.mem, dir) == SegMapped(Flat(old(k.mem), dir), elf, ph)
    ensures res != 0 ==> res == -EINVARG && k.mem == old(k.mem)
  {
    hide ReadWord; hide Mapped; hide TableAddr; hide EntryOf; hide Flat; hide DirOk;
    hide AlignAddress; hide SegFlags; hide SegPhys;
    var phys := SegPhys(elf, ph);
    EndAligned((phys + ph.memsz) % WORD_LIMIT);
    LowerPage(ph.vaddr);
    res := k.PagingMapTo(dir, Mask(ph.vaddr), Mask(phys), AlignAddress((phys + ph.memsz) % WORD_LIMIT), SegFlags(ph));
  }

  /** process_map_elf: map every program header, until one is refused; what was mapped before it stays mapped. */
  method MapElf(k: Machine, dir: PageAddr, elf: PageAddr) returns (res: int)
    requires k.Valid() && DirOk(k.mem, dir) && HeadersApart(k.mem, dir, elf)
    modifies k`mem
    ensures k.Valid() && SameTables(old(k.mem), k.mem, dir) && OnlyTables(old(k.mem), k.mem, dir)
    ensures var hs := Headers(old(k.mem), elf);
            && res == (if FirstRefused(elf, hs) == |hs| then 0 else -EINVARG)
            && Flat(k.mem, dir) == ElfMapped(Flat(old(k.mem), dir), elf, hs, FirstRefused(elf, hs))
  {
    hide ReadWord; hide TableAddr; hide EntryOf; hide SegAccepted; hide SegMapped; hide HeadersApart; hide DirOk;
    ghost var m := k.mem;
    HeadersSame(m, m, dir, elf);
    ghost var hs := Headers(m, elf);
    ghost var f := Flat(m, dir);
    res := 0;
    var i := 0;
    while i < PhdrCount(k.mem, elf)
      invariant k.Valid() && res == 0 && 0 <= i <= |hs|
      invariant SameTables(m, k.mem, dir) && OnlyTables(m, k.mem, dir)
      invariant PhdrCount(k.mem, elf) == |hs|
      invariant HeadersInMemory(k.mem, elf) && Headers(k.mem, elf) == hs
      invariant forall j :: 0 <= j < i ==> SegAccepted(elf, hs[j])
      invariant Flat(k.mem, dir) == ElfMapped(f, elf, hs, i)
      decreases |hs| - i
    {
      ghost var n := k.mem;
      SameTablesOk(m, n, dir);
      var ph := PhdrAt(k.mem, elf + PhdrOffset(k.mem, elf) + PHDR_SIZE * i);
      assert ph == hs[i];
      res := MapHeader(k, dir, elf, ph);
      OnlyTablesTrans(m, n, k.mem, dir);
      if res < 0 {
        break;
      }
      HeadersSame(m, k.mem, dir, elf);
      i := i + 1;
    }
  }

  /** process_map_memory: the calls of LoadRanges, in order; the status of mapping a flat binary, and of mapping the
      stack, is not looked at. */
  method MapMemory(k: Machine, dir: PageAddr, file: FileType, stack: PageAddr) returns (res: int)
    requires k.Valid() && DirOk(k.mem, dir) && stack + STACK_SIZE < WORD_LIMIT && file.Readable(k.mem, dir)
    modifies k`mem
    ensures k.Valid() && SameTables(old(k.mem), k.mem, dir) && OnlyTables(old(k.mem), k.mem, dir)
    ensures res == if file.Accepted(old(k.mem)) then 0 else -EINVARG
    ensures Flat(k.mem, dir) == ApplyAll(Flat(old(k.mem), dir), LoadRanges(old(k.mem), dir, file, stack))
  {
    hide ReadWord; hide Mapped; hide TableAddr; hide EntryOf; hide AlignAddress; hide OwnsPage; hide ElfMapped;
    hide ApplyAll; hide HeadersApart; hide SegAccepted;
    ghost var m := k.mem;
    ghost var f, ranges := Flat(m, dir), [];
    ApplyNone(f);
    match file {
      case Elf(elf) =>
        HeadersSame(m, m, dir, elf);
        ghost var hs := Headers(m, elf);
        ElfMappedIsApplied(f, elf, hs, FirstRefused(elf, hs));
        res := MapElf(k, dir, elf);
        if res < 0 {
          return;
        }
        ranges := ElfRanges(elf, hs, |hs|);
      case Binary(ptr, size) =>
        EndAligned(ptr + size);
        var r := k.PagingMapTo(dir, PROGRAM_ADDRESS, ptr, AlignAddress(ptr + size), USER_RW);
        res := 0;
        ApplyOneMore(f, [], BinaryRange(ptr, size));
        ranges := [] + [BinaryRange(ptr, size)];
    }
    ghost var n := k.mem;
    SameTablesOk(m, n, dir);
    assert Flat(n, dir) == ApplyAll(f, ranges);
    StackEnd(stack);
    var r := k.PagingMapTo(dir, STACK_BOTTOM, stack, AlignAddress(stack + STACK_SIZE), USER_RW);
    OnlyTablesTrans(m, n, k.mem, dir);
    assert Flat(k.mem, dir) == StackRange(stack).Apply(Flat(n, dir));
    ApplyOneMore(f, ranges, StackRange(stack));
    assert LoadRanges(m, dir, file, stack) == ranges + [StackRange(stack)];
  }

  lemma StackEnd(stack: PageAddr)
    requires stack + STACK_SIZE < WORD_LIMIT
    ensures AlignAddress(stack + STACK_SIZE) == stack + STACK_SIZE && (stack + STACK_SIZE) % PAGE == 0
  {
  }

  // ----- What loading does to isolation -----

  /** Headers that lie in the image of the process are apart from its page tables. */
  lemma HeadersInImage(st: I.World, l: I.Ledger, pid: nat, elf: PageAddr, head: nat)
    requires pid in st.procs && HeadersInMemory(st.mem, elf)
    requires I.Owns(l, head, I.Image(pid)) && head + l.live[head] <= HEAP_BLOCKS && HEAP_BASE + head * PAGE <= elf
    requires HeadersEnd(st.mem, elf) <= HEAP_BASE + (head + l.live[head]) * PAGE
    requires I.Inv(st, l)
    ensures HeadersApart(st.mem, st.procs[pid].dir, elf)
  {
    hide HeadersInMemory; hide HeadersEnd; hide TableAddr;
    var end := HeadersEnd(st.mem, elf);
    forall a: PageAddr | OwnsPage(st.mem, st.procs[pid].dir, a) ensures a + PAGE <= elf || a >= end {
      assert PtPage(st.mem, st.procs[pid].dir, st.procs[pid].chunk, a);
      I.PtBlockOwned(st, l, pid, a);
      var b := BlockOf(a);
      if a + PAGE > elf && a < end {
        assert Covers(l.live, head, b) && Covers(l.live, b, b);
        LiveDisjoint(st.table, l.live, head, b, b);
        assert false;
      }
    }
  }

  // ----- A file as bytes -----

  function FileWord(file: seq<Byte>, x: nat): Word
    requires x + 4 <= |file|
  {
    var b0: int, b1: int, b2: int, b3: int := file[x], file[x + 1], file[x + 2], file[x + 3];
    b0 + 256 * b1 + 65536 * b2 + 16777216 * b3
  }

  /** elf_validate_loaded: the signature, the class, the byte order, and that there is a program header table. */
  predicate Validated(file: seq<Byte>)
    requires |file| >= 52
  {
    && file[..4] == [0x7F, 0x45, 0x4C, 0x46] && file[4] <= 1 && file[5] <= 1
    && FileWord(file, 28) != 0
  }

  /** A file that is accepted as ELF, with room for the ELF header and for the program headers that it announces. */
  predicate IsElf(file: seq<Byte>) {
    |file| >= 52 && Validated(file) && FileWord(file, 28) + PHDR_SIZE * FileHeaderCount(file) <= |file|
  }

  function FileHeaderCount(file: seq<Byte>): nat
    requires |file| >= 52
  {
    var lo: int, hi: int := file[44], file[45];
    lo + 256 * hi
  }

  function FileHeader(file: seq<Byte>, a: nat): Phdr
    requires a + PHDR_SIZE <= |file|
  {
    Phdr(FileWord(file, a + 4), FileWord(file, a + 8), FileWord(file, a + 20), FileWord(file, a + 24))
  }

  function FileHeaders(file: seq<Byte>): (hs: seq<Phdr>)
    requires IsElf(file)
    ensures |hs| == FileHeaderCount(file)
    ensures forall i :: 0 <= i < |hs| ==> hs[i] == FileHeader(file, FileWord(file, 28) + PHDR_SIZE * i)
  {
    seq(FileHeaderCount(file),
        i requires 0 <= i < FileHeaderCount(file) => FileHeader(file, FileWord(file, 28) + PHDR_SIZE * i))
  }

  type Half = h: int | 0 <= h < 0x1_0000

  /** struct elf_header. */
  datatype ElfHeader = ElfHeader(ident: seq<Byte>, kind: Half, machine: Half, version: Word, entry: Word, phoff: Word,
                                 shoff: Word, flags: Word, ehsize: Half, phentsize: Half, phnum: Half,
                                 shentsize: Half, shnum: Half, shstrndx: Half)

  /** struct elf32_phdr. */
  datatype ProgramHeader = ProgramHeader(kind: Word, offset: Word, vaddr: Word, paddr: Word, filesz: Word, memsz: Word,
                                         flags: Word, align: Word)

  function HalfBytes(h: Half): seq<Byte> { [h % 0x100, h / 0x100] }

  /** The packed fields, in order. */
  function HeaderBytes(h: ElfHeader): seq<Byte> {
    h.ident + HalfBytes(h.kind) + HalfBytes(h.machine)
    + LittleEndian(h.version) + LittleEndian(h.entry) + LittleEndian(h.phoff) + LittleEndian(h.shoff)
    + LittleEndian(h.flags) + HalfBytes(h.ehsize) + HalfBytes(h.phentsize) + HalfBytes(h.phnum)
    + HalfBytes(h.shentsize) + HalfBytes(h.shnum) + HalfBytes(h.shstrndx)
  }

  function PhdrBytes(p: ProgramHeader): seq<Byte> {
    LittleEndian(p.kind) + LittleEndian(p.offset) + LittleEndian(p.vaddr) + LittleEndian(p.paddr)
    + LittleEndian(p.filesz) + LittleEndian(p.memsz) + LittleEndian(p.flags) + LittleEndian(p.align)
  }

  lemma FileWordIs(file: seq<Byte>, x: nat, w: Word)
    requires x + 4 <= |file| && file[x..x + 4] == LittleEndian(w)
    ensures FileWord(file, x) == w
  {
    assert file[x..x + 4][0] == file[x] && file[x..x + 4][1] == file[x + 1];
    assert file[x..x + 4][2] == file[x + 2] && file[x..x + 4][3] == file[x + 3];
    hide LittleEndian;
    BytesOfWord(w);
  }

  lemma WordWithin(file: seq<Byte>, x: nat, i: nat)
    requires i + 4 <= 32 && x + 32 <= |file|
    ensures file[x + i..x + i + 4] == file[x..x + 32][i..i + 4]
  {
    var s, a, b := file[x..x + 32], file[x + i..x + i + 4], file[x..x + 32][i..i + 4];
    forall k | 0 <= k < 4 ensures a[k] == b[k] {
      assert b[k] == s[i + k] == file[x + (i + k)];
    }
  }

  lemma PhdrFields(file: seq<Byte>, x: nat, p: ProgramHeader)
    requires x + 32 <= |file| && file[x..x + 32] == PhdrBytes(p)
    ensures FileHeader(file, x) == Phdr(p.offset, p.vaddr, p.memsz, p.flags)
  {
    hide FileWord; hide LittleEndian;
    var b := PhdrBytes(p);
    WordWithin(file, x, 4);
    assert b[4..8] == LittleEndian(p.offset);
    WordWithin(file, x, 8);
    assert b[8..12] == LittleEndian(p.vaddr);
    WordWithin(file, x, 20);
    assert b[20..24] == LittleEndian(p.memsz);
    WordWithin(file, x, 24);
    assert b[24..28] == LittleEndian(p.flags);
    FileWordIs(file, x + 4, p.offset);
    FileWordIs(file, x + 8, p.vaddr);
    FileWordIs(file, x + 20, p.memsz);
    FileWordIs(file, x + 24, p.flags);
  }

  lemma ElfFields(file: seq<Byte>, h: ElfHeader)
    requires |h.ident| == 16 && |file| >= 52 && file[..52] == HeaderBytes(h)
    ensures file[..16] == h.ident && FileWord(file, 28) == h.phoff && FileHeaderCount(file) == h.phnum
  {
    hide FileWord; hide LittleEndian;
    var b := HeaderBytes(h);
    assert file[..16] == file[..52][..16] == b[..16] == h.ident;
    assert file[28..32] == file[..52][28..32] == b[28..32] == LittleEndian(h.phoff);
    FileWordIs(file, 28, h.phoff);
    assert file[44..46] == file[..52][44..46] == b[44..46] == HalfBytes(h.phnum);
    assert file[44] == file[44..46][0] && file[45] == file[44..46][1];
  }

  /** A file that is written field by field is read back: of each program header its offset, address, size in memory and
      flags. */
  lemma HeadersReadBack(file: seq<Byte>, h: ElfHeader, ps: seq<ProgramHeader>)
    requires |h.ident| == 16 && h.ident[..4] == [0x7F, 0x45, 0x4C, 0x46] && h.ident[4] <= 1 && h.ident[5] <= 1
    requires |file| >= 52 && file[..52] == HeaderBytes(h) && h.phoff != 0 && h.phnum == |ps|
    requires h.phoff + 32 * |ps| <= |file|
    requires forall i :: 0 <= i < |ps| ==> file[h.phoff + 32 * i..h.phoff + 32 * i + 32] == PhdrBytes(ps[i])
    ensures IsElf(file) && |FileHeaders(file)| == |ps|
    ensures forall i :: 0 <= i < |ps| ==>
              FileHeaders(file)[i] == Phdr(ps[i].offset, ps[i].vaddr, ps[i].memsz, ps[i].flags)
  {
    hide FileWord; hide LittleEndian; hide FileHeader; hide HeaderBytes; hide PhdrBytes; hide FileHeaderCount;
    ElfFields(file, h);
    assert file[..4] == h.ident[..4] && file[4] == h.ident[4] && file[5] == h.ident[5] by {
      assert file[..16] == h.ident;
      assert file[..16][..4] == file[..4] && file[..16][4] == file[4] && file[..16][5] == file[5];
    }
    forall i | 0 <= i < |ps|
      ensures FileHeaders(file)[i] == Phdr(ps[i].offset, ps[i].vaddr, ps[i].memsz, ps[i].flags)
    {
      PhdrFields(file, h.phoff + 32 * i, ps[i]);
    }
  }

  /** The bytes of the file are in memory from a on. */
  ghost predicate FileAt(m: Mem, a: nat, file: seq<Byte>) {
    a + |file| <= WORD_LIMIT && forall i :: 0 <= i < |file| ==> m[a + i] == file[i]
  }

  lemma WordOfFile(m: Mem, a: nat, file: seq<Byte>, x: nat)
    requires FileAt(m, a, file) && x + 4 <= |file|
    ensures ReadWord(m, a + x) == FileWord(file, x)
  {
    assert m[a + x] == file[x] && m[a + (x + 1)] == file[x + 1];
    assert m[a + (x + 2)] == file[x + 2] && m[a + (x + 3)] == file[x + 3];
  }

  lemma HeaderOfFile(m: Mem, elf: PageAddr, file: seq<Byte>, x: nat)
    requires FileAt(m, elf, file) && x + PHDR_SIZE <= |file|
    ensures PhdrAt(m, elf + x) == FileHeader(file, x)
  {
    hide ReadWord; hide FileWord;
    WordOfFile(m, elf, file, x + 4);
    WordOfFile(m, elf, file, x + 8);
    WordOfFile(m, elf, file, x + 20);
    WordOfFile(m, elf, file, x + 24);
  }

  /** The headers that process_map_elf reads are those of the file. */
  lemma HeadersOfFile(m: Mem, elf: PageAddr, file: seq<Byte>)
    requires FileAt(m, elf, file) && IsElf(file)
    ensures HeadersInMemory(m, elf) && Headers(m, elf) == FileHeaders(file)
    ensures HeadersEnd(m, elf) <= elf + |file|
  {
    hide ReadWord; hide FileWord;
    WordOfFile(m, elf, file, 28);
    assert m[elf + 44] == file[44] && m[elf + 45] == file[45];
    forall i | 0 <= i < FileHeaderCount(file) ensures Headers(m, elf)[i] == FileHeaders(file)[i] {
      var x := FileWord(file, 28) + PHDR_SIZE * i;
      HeaderOfFile(m, elf, file, x);
      assert elf + PhdrOffset(m, elf) + PHDR_SIZE * i == elf + x;
    }
  }

  /** Pages that a header maps, counted from the page of its file offset. */
  function HeaderPages(ph: Phdr): int { (ph.offset + ph.memsz + PAGE - 1) / PAGE - ph.offset / PAGE }

  /** What a caller can check of a program header: its bytes in memory, p_memsz included, end inside n blocks of the
      image, and the pages that it asks for are not the heap's. */
  predicate HeaderInside(ph: Phdr, n: nat) {
    && ph.offset + ph.memsz <= n * PAGE
    && (ph.vaddr / PAGE + HeaderPages(ph) <= HEAP_BASE / PAGE ||
        (ph.vaddr / PAGE >= HEAP_BASE / PAGE + HEAP_BLOCKS && ph.vaddr / PAGE + HeaderPages(ph) <= PAGES))
  }

  predicate HeadersInside(hs: seq<Phdr>, n: nat) {
    forall i :: 0 <= i < |hs| ==> HeaderInside(hs[i], n)
  }

  lemma HeaderSpan(elf: PageAddr, ph: Phdr)
    requires elf + ph.offset + ph.memsz <= WORD_LIMIT - PAGE
    ensures SegPhys(elf, ph) == elf + ph.offset && Mask(SegPhys(elf, ph)) == elf + ph.offset / PAGE * PAGE
    ensures SegEnd(elf, ph) == elf + (ph.offset + ph.memsz + PAGE - 1) / PAGE * PAGE
  {
    hide AlignAddress; hide Mask;
    RoundUp(elf, ph.offset + ph.memsz);
    RoundDown(elf, ph.offset);
  }

  predicate InHeader(ph: Phdr, page: int) {
    ph.vaddr / PAGE <= page < ph.vaddr / PAGE + HeaderPages(ph)
  }

  /** What a caller can check of the headers together: each is congruent and at or above 0x400000, and no page is asked
      for by two. */
  ghost predicate HeadersClean(hs: seq<Phdr>) {
    && (forall i :: 0 <= i < |hs| ==> hs[i].vaddr >= 0x400000 && hs[i].vaddr % PAGE == hs[i].offset % PAGE)
    && forall i, j, page: int :: 0 <= i < j < |hs| && InHeader(hs[i], page) ==> !InHeader(hs[j], page)
  }

  lemma HeaderFits(elf: PageAddr, ph: Phdr, n: nat)
    requires elf + n * PAGE <= WORD_LIMIT - PAGE && HeaderInside(ph, n) && ph.vaddr % PAGE == ph.offset % PAGE
    ensures SegPages(elf, ph) == HeaderPages(ph) && SegFits(elf, ph) && SegAccepted(elf, ph)
  {
    hide AlignAddress; hide Mask; hide SegPhys; hide SegEnd;
    HeaderSpan(elf, ph);
    CeilBound(ph.offset + ph.memsz, n);
    Multiples(elf, ph.offset / PAGE, (ph.offset + ph.memsz + PAGE - 1) / PAGE, n);
    EndOfPages(ph);
  }

  lemma EndOfPages(ph: Phdr)
    requires ph.vaddr % PAGE == ph.offset % PAGE && ph.vaddr / PAGE + HeaderPages(ph) <= PAGES
    ensures ph.vaddr + ph.memsz <= WORD_LIMIT
  {
    var end := ph.offset + ph.memsz;
    assert end <= (end + PAGE - 1) / PAGE * PAGE;
    assert ph.offset == ph.offset / PAGE * PAGE + ph.offset % PAGE;
    assert ph.vaddr == ph.vaddr / PAGE * PAGE + ph.vaddr % PAGE;
  }

  /** Such headers, inside n blocks of the image, are well-formed wherever the image is. */
  lemma CleanIsWellFormed(elf: PageAddr, hs: seq<Phdr>, n: nat)
    requires elf + n * PAGE <= WORD_LIMIT - PAGE && HeadersInside(hs, n) && HeadersClean(hs)
    ensures WellFormed(elf, hs)
  {
    hide SegFits; hide SegAccepted; hide HeaderInside; hide HeaderPages; hide SegPages;
    forall j | 0 <= j < |hs|
      ensures SegFits(elf, hs[j]) && SegAccepted(elf, hs[j]) && SegPages(elf, hs[j]) == HeaderPages(hs[j])
    {
      HeaderFits(elf, hs[j], n);
    }
    forall i, j, page: int | 0 <= i < j < |hs| && InSeg(elf, hs[i], page) ensures !InSeg(elf, hs[j], page) {
      assert InHeader(hs[i], page);
    }
  }

  /** At the addresses of the segment the process reads the bytes of the file, as far as the file goes. */
  ghost predicate SegReads(f: FlatMap, m: Mem, ph: Phdr, file: seq<Byte>) {
    forall v: Word :: ph.vaddr <= v < ph.vaddr + ph.memsz && ph.offset + (v - ph.vaddr) < |file| ==>
      m[Translate(f, v)] == file[ph.offset + (v - ph.vaddr)]
  }

  lemma LoadedReads(f: FlatMap, m: Mem, elf: PageAddr, ph: Phdr, file: seq<Byte>)
    requires SegLoaded(f, elf, ph) && FileAt(m, elf, file)
    ensures SegReads(f, m, ph, file)
  {
    hide Translate;
    forall v: Word | ph.vaddr <= v < ph.vaddr + ph.memsz && ph.offset + (v - ph.vaddr) < |file|
      ensures m[Translate(f, v)] == file[ph.offset + (v - ph.vaddr)]
    {
      assert ByteLoaded(f, elf, ph, v);
      var i := ph.offset + (v - ph.vaddr);
      assert m[elf + i] == file[i];
    }
  }

  /** Whole pages from a lower to an upper multiple. */
  lemma Multiples(elf: PageAddr, low: int, high: int, n: int)
    requires low <= high <= n
    ensures elf + low * PAGE <= elf + high * PAGE <= elf + n * PAGE
    ensures (elf + high * PAGE - (elf + low * PAGE)) / PAGE == high - low
  {
  }

  lemma CeilBound(x: nat, n: nat)
    requires x <= n * PAGE
    ensures (x + PAGE - 1) / PAGE <= n
  {
  }

  /** Such a header is accepted, and stays inside the image. */
  lemma HeaderIsInside(l: I.Ledger, head: nat, elf: PageAddr, ph: Phdr)
    requires head in l.live && head + l.live[head] <= HEAP_BLOCKS && elf == HEAP_BASE + head * PAGE
    requires HeaderInside(ph, l.live[head])
    ensures SegAccepted(elf, ph) && Inside(l, head, SegRange(elf, ph)) && SegRange(elf, ph).flags < 8
  {
    hide AlignAddress; hide Mask; hide SegFlags; hide SegPhys; hide SegEnd; hide I.HeapPage; hide Range.Contains;
    var n := l.live[head];
    HeaderSpan(elf, ph);
    CeilBound(ph.offset + ph.memsz, n);
    Multiples(elf, ph.offset / PAGE, (ph.offset + ph.memsz + PAGE - 1) / PAGE, n);
    FlagsSmall(ph);
    OffHeap(SegRange(elf, ph));
  }

  lemma FlagsSmall(ph: Phdr)
    ensures SegFlags(ph) < 8
  {
  }

  lemma RoundUp(elf: PageAddr, d: nat)
    requires elf + d <= WORD_LIMIT - PAGE
    ensures AlignAddress(elf + d) == elf + (d + PAGE - 1) / PAGE * PAGE
  {
    OffsetInPage(elf, d);
  }

  lemma RoundDown(elf: PageAddr, d: nat)
    requires elf + d < WORD_LIMIT
    ensures Mask(elf + d) == elf + d / PAGE * PAGE
  {
    OffsetInPage(elf, d);
  }

  lemma OffHeap(r: Range)
    requires r.page + r.count <= HEAP_BASE / PAGE || (r.page >= HEAP_BASE / PAGE + HEAP_BLOCKS
              && r.page + r.count <= PAGES)
    ensures forall v :: 0 <= v < PAGES && r.Contains(v) ==> !I.HeapPage(v)
  {
  }

  /** Loading an ELF file whose headers stay inside the image and off the heap is harmless, and succeeds. */
  lemma ElfHarmless(st: I.World, l: I.Ledger, pid: nat, elf: PageAddr, head: nat, file: seq<Byte>, stack: PageAddr,
                    stackHead: nat)
    requires pid in st.procs && IsElf(file) && FileAt(st.mem, elf, file) && elf == HEAP_BASE + head * PAGE
    requires I.Owns(l, head, I.Image(pid)) && head + l.live[head] <= HEAP_BLOCKS && |file| <= l.live[head] * PAGE
    requires I.Owns(l, stackHead, I.Image(pid)) && stackHead + l.live[stackHead] <= HEAP_BLOCKS
    requires stack == HEAP_BASE + stackHead * PAGE && l.live[stackHead] == STACK_SIZE / PAGE
    requires HeadersInside(FileHeaders(file), l.live[head])
    requires I.Inv(st, l)
    ensures Elf(elf).Readable(st.mem, st.procs[pid].dir) && Elf(elf).Accepted(st.mem) && stack + STACK_SIZE < WORD_LIMIT
    ensures I.Harmless(l, pid, st.procs[pid].allocs, LoadRanges(st.mem, st.procs[pid].dir, Elf(elf), stack))
  {
    hide I.Inv; hide I.Harmless; hide HeaderInside; hide SegAccepted; hide FileAt; hide IsElf;
    hide FileHeaders; hide HeadersApart; hide HeadersEnd; hide HeadersInMemory; hide ElfRanges;
    HeadersOfFile(st.mem, elf, file);
    HeadersInImage(st, l, pid, elf, head);
    var hs := FileHeaders(file);
    HeadersHarmless(l, pid, st.procs[pid].allocs, elf, head, hs, stack, stackHead);
  }

  lemma HeadersHarmless(l: I.Ledger, pid: nat, allocs: seq<Allocation>, elf: PageAddr, head: nat, hs: seq<Phdr>,
                        stack: PageAddr, stackHead: nat)
    requires I.Owns(l, head, I.Image(pid)) && head + l.live[head] <= HEAP_BLOCKS && elf == HEAP_BASE + head * PAGE
    requires I.Owns(l, stackHead, I.Image(pid)) && stackHead + l.live[stackHead] <= HEAP_BLOCKS
    requires stack == HEAP_BASE + stackHead * PAGE && l.live[stackHead] == STACK_SIZE / PAGE
    requires HeadersInside(hs, l.live[head])
    ensures stack + STACK_SIZE < WORD_LIMIT && FirstRefused(elf, hs) == |hs|
    ensures I.Harmless(l, pid, allocs, ElfRanges(elf, hs, |hs|) + [StackRange(stack)])
  {
    hide I.Harmless; hide Inside; hide HeaderInside; hide SegAccepted; hide SegRange; hide StackRange;
    forall i | 0 <= i < |hs| ensures SegAccepted(elf, hs[i]) {
      HeaderIsInside(l, head, elf, hs[i]);
    }
    assert FirstRefused(elf, hs) == |hs|;
    var ranges := ElfRanges(elf, hs, |hs|);
    forall i | 0 <= i < |hs| ensures Inside(l, head, ranges[i]) && ranges[i].flags < 8 {
      HeaderIsInside(l, head, elf, hs[i]);
    }
    StackInside(l, stackHead, stack);
    var heads: seq<nat> := seq(|hs|, _ => head);
    InsideIsHarmless(l, pid, allocs, ranges + [StackRange(stack)], heads + [stackHead]);
  }

  lemma StackInside(l: I.Ledger, head: nat, stack: PageAddr)
    requires head in l.live && head + l.live[head] <= HEAP_BLOCKS && l.live[head] == STACK_SIZE / PAGE
    requires stack == HEAP_BASE + head * PAGE
    ensures stack + STACK_SIZE < WORD_LIMIT && Inside(l, head, StackRange(stack)) && StackRange(stack).flags < 8
  {
    OffHeap(StackRange(stack));
  }

  /** One header mapped for a process: the whole system is isolated afterwards, and its invariant holds, exactly when
      the header's pages are allowed. */
  lemma SegmentKeepsIff(st: I.World, l: I.Ledger, pid: nat, elf: PageAddr, ph: Phdr, st': I.World)
    requires SegAccepted(elf, ph) && I.Remapped(st, pid, [SegRange(elf, ph)], st')
    requires I.Inv(st, l)
    ensures I.Isolated(st', l) <==> forall v :: 0 <= v < PAGES && SegRange(elf, ph).Contains(v) ==>
              I.EntryOk(l, pid, st.procs[pid].allocs, v, SegRange(elf, ph).Entry(v))
    ensures I.Inv(st', l) <==> I.Isolated(st', l)
  {
    hide SegAccepted; hide I.Inv; hide I.Isolated; hide I.Remapped; hide SegRange; hide I.EntryOk;
    var r := SegRange(elf, ph);
    assert pid in st.procs by { RemappedProc(st, pid, [r], st'); }
    I.MappingKeepsIff(st, l, pid, [r], st');
    I.MappingIsolatesIff(st, l, pid, [r], st');
    forall v ensures Decides([r], 0, v) <==> r.Contains(v) {
    }
    assert [r][0] == r;
  }

  lemma RemappedProc(st: I.World, pid: nat, ranges: seq<Range>, st': I.World)
    requires I.Remapped(st, pid, ranges, st')
    ensures pid in st.procs && AllFit(ranges)
  {
  }

  /** A writeable header whose file offset reaches the page directory of its own process: it is accepted, and asks for
      exactly the mapping that I.HarmfulMapping speaks of. */
  lemma HeaderOverDirectory(elf: PageAddr, dir: PageAddr)
    requires dir + PAGE < WORD_LIMIT
    ensures var ph := Phdr((dir - elf) % WORD_LIMIT, PROGRAM_ADDRESS, PAGE, PF_W);
            SegAccepted(elf, ph) && SegRange(elf, ph) == Range(PROGRAM_ADDRESS / PAGE, dir, 1, USER_RW)
  {
    hide AlignAddress; hide Mask;
    var ph := Phdr((dir - elf) % WORD_LIMIT, PROGRAM_ADDRESS, PAGE, PF_W);
    BackTo(elf, dir);
    NextPage(dir);
    assert SegPhys(elf, ph) == dir;
    assert SegEnd(elf, ph) == dir + PAGE;
  }

  lemma BackTo(a: Word, b: Word)
    ensures (a + (b - a) % WORD_LIMIT) % WORD_LIMIT == b
  {
  }

  lemma NextPage(dir: PageAddr)
    requires dir + PAGE < WORD_LIMIT
    ensures Mask(dir) == dir && AlignAddress((dir + PAGE) % WORD_LIMIT) == dir + PAGE
  {
  }

  /** So an ELF file with that header, once mapped, lets its process write its own page directory. */
  lemma ElfReachesDirectory(st: I.World, l: I.Ledger, pid: nat, elf: PageAddr, ph: Phdr, st': I.World)
    requires pid in st.procs && st.procs[pid].dir + PAGE < WORD_LIMIT
    requires ph == Phdr((st.procs[pid].dir - elf) % WORD_LIMIT, PROGRAM_ADDRESS, PAGE, PF_W)
    requires SegAccepted(elf, ph) && I.Remapped(st, pid, [SegRange(elf, ph)], st')
    requires I.Inv(st, l)
    ensures I.CanWrite(st', pid, PROGRAM_ADDRESS) && I.FrameOf(st', pid, PROGRAM_ADDRESS) == st.procs[pid].dir
    ensures !I.Inv(st', l) && !I.Isolated(st', l)
  {
    hide I.Inv; hide I.Isolated; hide I.Remapped; hide SegRange; hide SegAccepted; hide I.CanWrite;
    HeaderOverDirectory(elf, st.procs[pid].dir);
    I.HarmfulMapping(st, l, pid, PROGRAM_ADDRESS, [SegRange(elf, ph)], st');
  }

  /** The frames of a call lie in the blocks of the allocation at head, and its pages outside the heap. */
  ghost predicate Inside(l: I.Ledger, head: nat, r: Range) {
    && r.Fits() && head in l.live && head + l.live[head] <= HEAP_BLOCKS
    && HEAP_BASE + head * PAGE <= r.phys && r.phys + r.count * PAGE <= HEAP_BASE + (head + l.live[head]) * PAGE
    && forall v :: 0 <= v < PAGES && r.Contains(v) ==> !I.HeapPage(v)
  }

  /** Calls that stay inside the image of the process, p_memsz included, are allowed, whatever their order. */
  lemma InsideIsHarmless(l: I.Ledger, pid: nat, allocs: seq<Allocation>, ranges: seq<Range>, heads: seq<nat>)
    requires |heads| == |ranges|
    requires forall i :: 0 <= i < |ranges| ==>
               Inside(l, heads[i], ranges[i]) && I.Owns(l, heads[i], I.Image(pid)) && ranges[i].flags < 8
    ensures AllFit(ranges) && I.Harmless(l, pid, allocs, ranges)
  {
    hide I.EntryOk; hide Range.Entry; hide I.Owns; hide Range.Contains; hide I.HeapPage;
    forall i, v | 0 <= v < PAGES && Decides(ranges, i, v)
      ensures I.EntryOk(l, pid, allocs, v, ranges[i].Entry(v))
    {
      InsideEntry(l, pid, allocs, ranges[i], heads[i], v);
    }
  }

  lemma InsideEntry(l: I.Ledger, pid: nat, allocs: seq<Allocation>, r: Range, head: nat, v: nat)
    requires Inside(l, head, r) && I.Owns(l, head, I.Image(pid)) && r.flags < 8 && v < PAGES && r.Contains(v)
    ensures I.EntryOk(l, pid, allocs, v, r.Entry(v))
  {
    hide I.HeapPage; hide Tag; hide IsWriteable; hide IsPresent; hide IsUser;
    var k := (v - r.page) % PAGES;
    PageMultiple(r.phys);
    FrameInside(l.live, head, r.phys, r.count, k);
    TagGrants(r.phys + k * PAGE, r.flags);
  }

  lemma FrameInside(live: Live, head: nat, phys: PageAddr, count: nat, k: nat)
    requires head in live && head + live[head] <= HEAP_BLOCKS && k < count
    requires HEAP_BASE + head * PAGE <= phys && phys + count * PAGE <= HEAP_BASE + (head + live[head]) * PAGE
    ensures IsBlock(phys + k * PAGE) && Covers(live, head, BlockOf(phys + k * PAGE))
  {
  }
}
