/**
 heap.c and kheap.c: the first-fit block allocator, working in place on its byte table.
 */
module KernelHeap {
  import opened Bits
  import opened BlockTable
  import opened Status

  const BLOCK_SIZE: nat := 4096

  // kheap_init
  const HEAP_BASE: nat := 0x0100_0000
  const HEAP_SIZE: nat := 104857600
  const HEAP_BLOCKS: nat := 25600

  /** int is narrower than a pointer difference: from here on the block of an address is negative. */
  const INT_LIMIT: nat := 0x8000_0000

  /** The most blocks a 32-bit size can ask for. */
  const MAX_REQUEST: nat := 0x10_0000

  /** The pool is 25600 blocks of 4096 bytes from 16 MB on. */
  lemma KernelHeapConstants()
    ensures HEAP_BASE == 16 * 1024 * 1024 && HEAP_SIZE == 100 * 1024 * 1024 && BLOCK_SIZE == 4096
    ensures HEAP_BLOCKS == HEAP_SIZE / BLOCK_SIZE
    ensures HEAP_BASE % BLOCK_SIZE == 0 && (HEAP_BASE + HEAP_SIZE) % BLOCK_SIZE == 0
  {
  }

  /** heap_align_value_to_upper, in 32-bit arithmetic. */
  function AlignUpper(val: Word): (r: Word)
    ensures val <= WORD_LIMIT - BLOCK_SIZE ==> r % BLOCK_SIZE == 0 && val <= r < val + BLOCK_SIZE
    ensures val > WORD_LIMIT - BLOCK_SIZE ==> r == 0
  {
    if val % BLOCK_SIZE == 0 then val
    else (val - val % BLOCK_SIZE + BLOCK_SIZE) % WORD_LIMIT
  }

  /** The number of blocks heap_malloc asks for. */
  function Blocks(size: Word): (n: nat)
    ensures n < MAX_REQUEST
    ensures size <= WORD_LIMIT - BLOCK_SIZE ==> (n - 1) * BLOCK_SIZE < size <= n * BLOCK_SIZE || size == n == 0
    ensures size > WORD_LIMIT - BLOCK_SIZE ==> n == 0
  {
    AlignUpper(size) / BLOCK_SIZE
  }

  class Heap {
    const saddr: nat
    const total: nat
    /** Memory from the table's address on: the table itself, then the bytes behind it. */
    const entries: array<Entry>

    ghost predicate Valid() {
      total + MAX_REQUEST <= entries.Length
    }

    ghost function Table(): seq<Entry>
      requires Valid()
      reads entries
    {
      entries[..total]
    }

    constructor (saddr: nat, total: nat, entries: array<Entry>)
      requires total + MAX_REQUEST <= entries.Length
      ensures this.saddr == saddr && this.total == total && this.entries == entries && Valid()
    {
      this.saddr, this.total, this.entries := saddr, total, entries;
    }

    /** heap_create (the size is a size_t, and wraps): refuse an unaligned pool or a table of the wrong size, else clear
        the table. */
    static method Create(ptr: Word, end: Word, total: nat, memory: array<Entry>) returns (res: int, heap: Heap?)
      requires total + MAX_REQUEST <= memory.Length
      modifies memory
      ensures res == 0 <==>
                ptr % BLOCK_SIZE == 0 && end % BLOCK_SIZE == 0 && total == (end - ptr) % WORD_LIMIT / BLOCK_SIZE
      ensures res != 0 ==> res == -EINVARG && heap == null && memory[..] == old(memory[..])
      ensures res == 0 ==> heap != null && fresh(heap) && heap.Valid() && heap.saddr == ptr && heap.total == total
      ensures res == 0 ==> heap.entries == memory && heap.Table() == AllFree(total)
      ensures memory[total..] == old(memory[total..])
    {
      if ptr % BLOCK_SIZE != 0 || end % BLOCK_SIZE != 0 || total != (end - ptr) % WORD_LIMIT / BLOCK_SIZE {
        return -EINVARG, null;
      }
      for i := 0 to total
        invariant forall j :: 0 <= j < i ==> memory[j] == FREE
        invariant memory[total..] == old(memory[total..])
      {
        memory[i] := FREE;
      }
      heap := new Heap(ptr, total, memory);
      res := 0;
      assert heap.Table() == AllFree(total);
    }

    /** heap_get_start_block. */
    method GetStartBlock(blocks: nat) returns (r: int)
      requires Valid()
      ensures r == FirstFit(Table(), blocks)
    {
      ghost var t := Table();
      var bc, bs := 0, -1;
      var i := 0;
      while i < total
        invariant 0 <= i <= total
        invariant RunStart(t, i) == if bs == -1 then i else bs
        invariant bc == i - RunStart(t, i)
        invariant bs >= 0 ==> bc > 0
        invariant bs >= -1
        invariant blocks >= 1 ==> bc < blocks
        invariant blocks >= 1 ==> forall s :: FreeRun(t, s, blocks) ==> s + blocks > i
      {
        assert t[i] == entries[i];
        if entries[i] != FREE {
          bc, bs := 0, -1;
          i := i + 1;
          continue;
        }
        if bs == -1 {
          bs := i;
        }
        bc := bc + 1;
        if bc == blocks {
          assert FreeRun(t, bs, blocks);
          assert forall s :: FreeRun(t, s, blocks) ==> s >= bs;
          break;
        }
        forall s | blocks >= 1 && FreeRun(t, s, blocks) ensures s + blocks > i + 1 {
          RunStartIsLeast(t, i + 1, s, blocks);
        }
        i := i + 1;
      }
      if bs == -1 {
        return -ENOMEM;
      }
      return bs;
    }

    /** heap_mark_blocks_taken; nothing stops it at the end of the table. */
    method MarkBlocksTaken(start: nat, blocks: nat)
      requires start + blocks <= entries.Length
      modifies entries
      ensures entries[..] == old(entries[..start]) + Chain(blocks) + old(entries[start + blocks..])
    {
      var endBlock := start + blocks - 1;
      var entry: Entry := TAKEN | IS_FIRST;
      if blocks > 1 {
        entry := entry | HAS_NEXT;
      }
      var i := start;
      while i <= endBlock
        invariant start <= i <= start + blocks
        invariant i <= endBlock ==> entry == ChainEntry(i - start, blocks)
        invariant forall j :: start <= j < i ==> entries[j] == ChainEntry(j - start, blocks)
        invariant entries[..start] == old(entries[..start])
        invariant entries[i..] == old(entries[i..])
      {
        entries[i] := entry;
        entry := TAKEN;
        if i != endBlock - 1 {
          entry := entry | HAS_NEXT;
        }
        i := i + 1;
      }
      assert entries[start..start + blocks] == Chain(blocks);
      assert entries[..] == entries[..start] + entries[start..start + blocks] + entries[start + blocks..];
    }

    /** heap_malloc_blocks. */
    method MallocBlocks(blocks: nat) returns (address: nat)
      requires Valid() && blocks <= MAX_REQUEST
      modifies entries
      ensures var s := old(FirstFit(Table(), blocks));
              if s < 0 then address == 0 && entries[..] == old(entries[..])
              else && address == saddr + s * BLOCK_SIZE
                   && Table() == Marked(old(Table()), s, blocks)
                   && (forall i :: total <= i < entries.Length ==>
                         entries[i] == if i < s + blocks then ChainEntry(i - s, blocks) else old(entries[i]))
    {
      var start := GetStartBlock(blocks);
      if start < 0 {
        return 0;
      }
      ghost var before := entries[..];
      address := saddr + start * BLOCK_SIZE;
      MarkBlocksTaken(start, blocks);
      ghost var after := entries[..];
      assert forall i :: 0 <= i < entries.Length ==>
        after[i] == if start <= i < start + blocks then ChainEntry(i - start, blocks) else before[i];
      assert Table() == after[..total];
      assert before[..total] == old(Table());
      assert after[..total] == Marked(before[..total], start, blocks);
    }

    /** heap_mark_blocks_free. */
    method MarkBlocksFree(start: nat)
      requires Valid()
      modifies entries
      ensures Table() == Freed(old(Table()), start)
      ensures entries[total..] == old(entries[total..])
    {
      ghost var goal := Freed(Table(), start);
      var i := start;
      while i < total
        invariant start <= i
        invariant Freed(Table(), i) == goal
        invariant entries[total..] == old(entries[total..])
      {
        ghost var t := Table();
        var entry := entries[i];
        assert t[i] == entry;
        entries[i] := FREE;
        assert Table() == t[i := FREE];
        if !HasNext(entry) {
          break;
        }
        i := i + 1;
      }
    }

    /** heap_malloc. */
    method Malloc(size: Word) returns (address: nat)
      requires Valid()
      modifies entries
      ensures var n := Blocks(size);
              var s := old(FirstFit(Table(), n));
              if s < 0 then address == 0 && entries[..] == old(entries[..])
              else && address == saddr + s * BLOCK_SIZE
                   && Table() == Marked(old(Table()), s, n)
                   && (forall i :: total <= i < entries.Length ==>
                         entries[i] == if i < s + n then ChainEntry(i - s, n) else old(entries[i]))
    {
      var aligned := AlignUpper(size);
      address := MallocBlocks(aligned / BLOCK_SIZE);
    }

    /** heap_free, for a pointer whose distance from the pool's start is not negative as an int. */
    method Free(ptr: nat)
      requires Valid() && saddr <= ptr < saddr + INT_LIMIT
      modifies entries
      ensures Table() == Freed(old(Table()), (ptr - saddr) / BLOCK_SIZE)
      ensures entries[total..] == old(entries[total..])
    {
      MarkBlocksFree((ptr - saddr) / BLOCK_SIZE);
    }
  }
}
