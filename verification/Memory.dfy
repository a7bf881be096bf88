/**
 Physical memory: 2^32 bytes. Page directories and page tables are 32-bit little-endian
 words stored in it; memset and string copies work on its bytes.
 */
module Memory {
  import opened Bits

  type Byte = b: int | 0 <= b < 256

  type Mem = m: seq<Byte> | |m| == 0x1_0000_0000
    ghost witness seq(0x1_0000_0000, _ => 0)

  /** The uint32_t stored at address a. */
  function ReadWord(m: Mem, a: nat): (w: Word)
    requires a + 4 <= WORD_LIMIT
  {
    var b0: int, b1: int, b2: int, b3: int := m[a], m[a + 1], m[a + 2], m[a + 3];
    b0 + 256 * b1 + 65536 * b2 + 16777216 * b3
  }

  function WriteWord(m: Mem, a: nat, w: Word): (r: Mem)
    requires a + 4 <= WORD_LIMIT
    ensures forall i :: 0 <= i < |m| && !(a <= i < a + 4) ==> r[i] == m[i]
  {
    m[a := w % 256][a + 1 := w / 256 % 256][a + 2 := w / 65536 % 256][a + 3 := w / 16777216]
  }

  /** The bytes of a word, lowest first. */
  function LittleEndian(w: Word): (b: seq<Byte>)
    ensures |b| == 4
  {
    [w % 0x100, w / 0x100 % 0x100, w / 0x1_0000 % 0x100, w / 0x100_0000]
  }

  /** The word at a is w exactly when the four bytes there are those of w. */
  lemma WordBytes(m: Mem, a: nat, w: Word)
    requires a + 4 <= WORD_LIMIT
    ensures ReadWord(m, a) == w <==> m[a..a + 4] == LittleEndian(w)
  {
    hide LittleEndian;
    assert m[a..a + 4] == [m[a], m[a + 1], m[a + 2], m[a + 3]];
    WordOfBytes(m[a], m[a + 1], m[a + 2], m[a + 3]);
    BytesOfWord(w);
  }

  lemma BytesOfWord(w: Word)
    ensures var b := LittleEndian(w);
            var b0: int, b1: int, b2: int, b3: int := b[0], b[1], b[2], b[3];
            w == b0 + 256 * b1 + 65536 * b2 + 16777216 * b3
  {
    var q1, q2, q3 := w / 256, w / 65536, w / 16777216;
    DivMod(w, 256);
    DivMod(q1, 256);
    DivMod(q2, 256);
    assert q1 / 256 == q2 && q2 / 256 == q3;
  }

  lemma WordOfBytes(b0: Byte, b1: Byte, b2: Byte, b3: Byte)
    ensures var v := b0 + 256 * b1 + 65536 * b2 + 16777216 * b3;
            v < WORD_LIMIT && LittleEndian(v) == [b0, b1, b2, b3]
  {
    var v := b0 + 256 * b1 + 65536 * b2 + 16777216 * b3;
    ModUnique(v, 256, b1 + 256 * b2 + 65536 * b3, b0);
    ModUnique(v / 256, 256, b2 + 256 * b3, b1);
    ModUnique(v, 65536, b2 + 256 * b3, b0 + 256 * b1);
    ModUnique(v / 65536, 256, b3, b2);
    ModUnique(v, 16777216, b3, b0 + 256 * b1 + 65536 * b2);
  }

  lemma ReadBack(m: Mem, a: nat, w: Word)
    requires a + 4 <= WORD_LIMIT
    ensures ReadWord(WriteWord(m, a, w), a) == w
  {
    assert w == w % 256 + 256 * (w / 256 % 256) + 65536 * (w / 65536 % 256) + 16777216 * (w / 16777216);
  }

  /** Writing the word that m holds at a makes the four bytes those of m. */
  lemma RestoresBytes(m: Mem, n: Mem, a: nat)
    requires a + 4 <= WORD_LIMIT
    ensures forall x :: a <= x < a + 4 ==> WriteWord(n, a, ReadWord(m, a))[x] == m[x]
  {
    WordOfBytes(m[a], m[a + 1], m[a + 2], m[a + 3]);
  }

  /** m and n hold the same bytes in page a. */
  ghost predicate SamePage(m: Mem, n: Mem, a: PageAddr) {
    forall i :: a <= i < a + 4096 ==> m[i] == n[i]
  }

  lemma ReadSame(m: Mem, n: Mem, a: PageAddr, j: nat)
    requires SamePage(m, n, a) && j < 1024
    ensures ReadWord(m, a + 4 * j) == ReadWord(n, a + 4 * j)
  {
  }

  /** A word written into one page is not seen in another. */
  lemma WriteElsewhere(m: Mem, slot: nat, w: Word, a: PageAddr, b: PageAddr)
    requires a != b && a <= slot <= a + 4092
    ensures SamePage(m, WriteWord(m, slot, w), b)
  {
    assert a + 4096 <= b || b + 4096 <= a;
  }

  function Stored(m: Mem, addr: Word, val: Byte): Mem { m[addr := val] }

  /** A byte written into one page is not seen in another. */
  lemma StoreElsewhere(m: Mem, addr: Word, val: Byte, b: PageAddr)
    requires b != Mask(addr)
    ensures SamePage(m, Stored(m, addr, val), b)
  {
    assert Mask(addr) <= addr < Mask(addr) + 4096;
    assert Mask(addr) + 4096 <= b || b + 4096 <= Mask(addr);
  }

  lemma WriteOtherWord(m: Mem, a: PageAddr, i: nat, w: Word, k: nat)
    requires i < 1024 && k < 1024 && k != i
    ensures ReadWord(WriteWord(m, a + 4 * i, w), a + 4 * k) == ReadWord(m, a + 4 * k)
  {
  }

  /** memset(a, 0, size). */
  ghost function Zeroed(m: Mem, a: nat, size: nat): (r: Mem)
    requires a + size <= WORD_LIMIT
    ensures forall i :: 0 <= i < |m| ==> r[i] == if a <= i < a + size then 0 else m[i]
  {
    m[..a] + seq(size, _ => 0) + m[a + size..]
  }
}
