/**
 Bitwise "and" and "or" of unsigned 32-bit words, defined digit by digit, and the two
 arithmetic facts the page tables rest on: masking with 0xFFFFF000 rounds down to a page,
 and or-ing flags below 4096 into a page-aligned address is addition.
 */
module Bits {

  const WORD_LIMIT: nat := 0x1_0000_0000

  /** An unsigned 32-bit value (uint32_t, or a 32-bit pointer). */
  type Word = w: int | 0 <= w < 0x1_0000_0000

  function BitAnd(a: nat, b: nat): nat {
    if a == 0 || b == 0 then 0
    else 2 * BitAnd(a / 2, b / 2) + (if a % 2 == 1 && b % 2 == 1 then 1 else 0)
  }

  function BitOr(a: nat, b: nat): nat
    decreases a + b
  {
    if a == 0 && b == 0 then 0
    else 2 * BitOr(a / 2, b / 2) + (if a % 2 == 1 || b % 2 == 1 then 1 else 0)
  }

  /** Bit k of x. */
  predicate Bit(x: nat, k: nat) {
    if k == 0 then x % 2 == 1 else Bit(x / 2, k - 1)
  }

  /** "And" and "or" work on each bit by itself. */
  lemma {:induction false} BitByBit(a: nat, b: nat, k: nat)
    ensures Bit(BitAnd(a, b), k) <==> Bit(a, k) && Bit(b, k)
    ensures Bit(BitOr(a, b), k) <==> Bit(a, k) || Bit(b, k)
    decreases k
  {
    if k > 0 {
      BitByBit(a / 2, b / 2, k - 1);
    }
    NoBits(k);
  }

  lemma {:induction false} NoBits(k: nat)
    ensures !Bit(0, k)
  {
    if k > 0 { NoBits(k - 1); }
  }

  /** Words with the same 32 bits are the same. */
  lemma {:induction false} BitsDetermine(x: nat, y: nat, n: nat)
    requires x < Pow2(n) && y < Pow2(n) && forall k :: 0 <= k < n ==> (Bit(x, k) <==> Bit(y, k))
    ensures x == y
  {
    if n > 0 {
      assert Bit(x, 0) <==> Bit(y, 0);
      forall k | 0 <= k < n - 1 ensures Bit(x / 2, k) <==> Bit(y / 2, k) {
        assert Bit(x, k + 1) <==> Bit(y, k + 1);
      }
      BitsDetermine(x / 2, y / 2, n - 1);
    }
  }

  function Pow2(k: nat): (p: nat)
    ensures p >= 1
  {
    if k == 0 then 1 else 2 * Pow2(k - 1)
  }

  lemma {:induction false} OrBounded(a: nat, b: nat, k: nat)
    requires a < Pow2(k) && b < Pow2(k)
    ensures BitOr(a, b) < Pow2(k)
  {
    if k > 0 {
      OrBounded(a / 2, b / 2, k - 1);
    }
  }

  /** Or-ing low bits into a multiple of 2^k adds them. */
  lemma {:induction false} OrLow(h: nat, low: nat, k: nat)
    requires low < Pow2(k)
    ensures BitOr(h * Pow2(k), low) == h * Pow2(k) + low
  {
    if k == 0 {
      OrZero(h);
    } else {
      var a := h * Pow2(k - 1);
      assert h * Pow2(k) == 2 * a;
      OrLow(h, low / 2, k - 1);
    }
  }

  lemma {:induction false} OrZero(a: nat)
    ensures BitOr(a, 0) == a
  {
    if a > 0 {
      OrZero(a / 2);
    }
  }

  /** And-ing with a mask of k ones changes nothing below 2^k. */
  lemma {:induction false} AndOnes(a: nat, k: nat)
    requires a < Pow2(k)
    ensures BitAnd(a, Pow2(k) - 1) == a
  {
    if k > 0 && a > 0 {
      AndOnes(a / 2, k - 1);
      assert (2 * Pow2(k - 1) - 1) / 2 == Pow2(k - 1) - 1;
    }
  }

  lemma ModUnique(a: nat, m: nat, q: nat, r: nat)
    requires m >= 1 && r < m && a == q * m + r
    ensures a % m == r && a / m == q
  {
    var d := a / m - q;
    assert a == (a / m) * m + a % m;
    assert d * m == r - a % m by {
      assert d * m == (a / m) * m - q * m;
    }
    assert d >= 1 ==> d * m >= m;
    assert d <= -1 ==> d * m <= 0 - m;
  }

  lemma AndEven(a: nat, x: nat)
    ensures BitAnd(a, 2 * x) == 2 * BitAnd(a / 2, x)
  {
    if a != 0 && x != 0 {
      assert 2 * x / 2 == x && 2 * x % 2 == 0;
    }
  }

  /** x shifted left (right) by k bits. */
  function Shl(x: nat, k: nat): nat {
    if k == 0 then x else 2 * Shl(x, k - 1)
  }

  function Shr(x: nat, k: nat): nat {
    if k == 0 then x else Shr(x / 2, k - 1)
  }

  /** And-ing with a mask shifted left by k keeps the masked bits above k. */
  lemma {:induction false} AndShifted(a: nat, mask: nat, k: nat)
    ensures BitAnd(a, Shl(mask, k)) == Shl(BitAnd(Shr(a, k), mask), k)
  {
    if k > 0 {
      AndEven(a, Shl(mask, k - 1));
      AndShifted(a / 2, mask, k - 1);
    }
  }

  lemma {:induction false} ShlScales(x: nat, k: nat)
    ensures Shl(x, k) == x * Pow2(k)
  {
    if k > 0 {
      ShlScales(x, k - 1);
      Twice(x, Pow2(k - 1));
    }
  }

  lemma Twice(x: nat, p: nat)
    ensures x * (2 * p) == 2 * (x * p)
  {
  }

  lemma {:induction false} ShrScales(x: nat, k: nat)
    ensures Shr(x, k) == x / Pow2(k)
  {
    if k > 0 {
      ShrScales(x / 2, k - 1);
      HalfDiv(x, Pow2(k - 1));
    }
  }

  lemma DivMod(a: nat, m: nat)
    requires m >= 1
    ensures a == a / m * m + a % m && 0 <= a % m < m
  {
  }

  lemma HalfDiv(a: nat, p: nat)
    requires p >= 1
    ensures a / (2 * p) == a / 2 / p
  {
    var q, r := a / 2 / p, a / 2 % p;
    DivMod(a / 2, p);
    Twice(q, p);
    ModUnique(a, 2 * p, q, 2 * r + a % 2);
  }

  lemma ShiftByPage(x: nat)
    ensures Shl(x, 12) == 4096 * x && Shr(x, 12) == x / 4096
  {
    Powers();
    ShlScales(x, 12);
    ShrScales(x, 12);
  }

  /** The address of a 4096-byte page. */
  type PageAddr = a: int | 0 <= a <= 0xFFFF_F000 && a % 4096 == 0

  /** The page (or table) address held in an entry. */
  function Mask(e: Word): PageAddr {
    e - e % 4096
  }

  /** Mask is `e & 0xfffff000`. */
  lemma MaskIsBitAnd(e: Word)
    ensures BitAnd(e, 0xFFFF_F000) == Mask(e)
  {
    calc {
      BitAnd(e, 0xFFFF_F000);
      { ShiftByPage(0xF_FFFF); }
      BitAnd(e, Shl(0xF_FFFF, 12));
      { AndShifted(e, 0xF_FFFF, 12); }
      Shl(BitAnd(Shr(e, 12), 0xF_FFFF), 12);
      { ShiftByPage(e); }
      Shl(BitAnd(e / 4096, 0xF_FFFF), 12);
      { Powers(); AndOnes(e / 4096, 20); }
      Shl(e / 4096, 12);
      { ShiftByPage(e / 4096); }
      4096 * (e / 4096);
    }
  }

  lemma Powers()
    ensures Pow2(12) == 4096 && Pow2(20) == 0x10_0000 && Pow2(32) == 0x1_0000_0000
  {
    assert Pow2(4) == 16;
    assert Pow2(8) == 256;
    assert Pow2(12) == 4096;
    assert Pow2(16) == 65536;
    assert Pow2(20) == 0x10_0000;
    assert Pow2(24) == 0x100_0000;
    assert Pow2(28) == 0x1000_0000;
  }

  lemma OrIsWord(a: Word, b: Word)
    ensures BitOr(a, b) < WORD_LIMIT
  {
    Powers();
    OrBounded(a, b, 32);
  }

  /** An address with flags or-ed in. */
  function Tag(addr: Word, flags: Word): Word {
    if addr % 4096 == 0 && flags < 4096 then addr + flags
    else assert BitOr(addr, flags) < WORD_LIMIT by { OrIsWord(addr, flags); } BitOr(addr, flags)
  }

  /** Tag is `addr | flags`. */
  lemma TagIsBitOr(addr: Word, flags: Word)
    ensures Tag(addr, flags) == BitOr(addr, flags)
  {
    if addr % 4096 == 0 && flags < 4096 {
      Powers();
      OrLow(addr / 4096, flags, 12);
    }
  }
}
