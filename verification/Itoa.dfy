/**
 itoa of the user library: decimal digits accumulated on the negative side of int32.
 */
module Itoa {
  import opened CStrings

  type Int32 = i: int | -0x8000_0000 <= i < 0x8000_0000

  /** C's division and remainder: truncated towards zero. */
  function CDiv(a: int, b: nat): int
    requires b > 0
  {
    if a >= 0 then a / b else 0 - (0 - a) / b
  }

  function CMod(a: int, b: nat): int
    requires b > 0
  {
    a - b * CDiv(a, b)
  }

  // ----- Decimal numerals -----

  function DigitOf(c: char): nat { if IsDigit(c) then (c - '0') as int else 0 }

  /** The value of a digit string. */
  function Value(s: seq<char>): nat {
    if s == [] then 0 else 10 * Value(s[..|s| - 1]) + DigitOf(s[|s| - 1])
  }

  /** A numeral without redundant signs or zeros. */
  predicate Canonical(s: seq<char>) {
    var digits := if s != [] && s[0] == '-' then s[1..] else s;
    && digits != [] && (forall c :: c in digits ==> IsDigit(c))
    && (digits[0] == '0' ==> s == "0")
  }

  function Decode(s: seq<char>): int
    requires Canonical(s)
  {
    if s[0] == '-' then 0 - Value(s[1..]) else Value(s)
  }

  /** The digits of n, the last one first computed. */
  function Digits(n: nat): (s: seq<char>)
    ensures s != [] && (forall c :: c in s ==> IsDigit(c)) && Value(s) == n && (s[0] == '0' ==> n == 0)
  {
    if n < 10 then
      assert Value([]) == 0;
      assert [DigitChar(n)][..0] == [];
      [DigitChar(n)]
    else
      var s := Digits(n / 10) + [DigitChar(n % 10)];
      assert s[..|s| - 1] == Digits(n / 10);
      s
  }

  function Numeral(i: int): (s: seq<char>)
    ensures Canonical(s) && Decode(s) == i
  {
    if i < 0 then
      assert (['-'] + Digits(-i))[1..] == Digits(-i);
      ['-'] + Digits(-i)
    else
      ZeroNumeral(i);
      Digits(i)
  }

  lemma ZeroNumeral(n: nat)
    ensures Digits(n)[0] == '0' ==> Digits(n) == "0"
    ensures Digits(n)[0] != '-'
  {
    assert Digits(n)[0] in Digits(n);
  }

  /** A canonical numeral is determined by its value. */
  lemma CanonicalUnique(s: seq<char>)
    requires Canonical(s)
    ensures s == Numeral(Decode(s))
  {
    if s[0] == '-' {
      PositiveValue(s[1..]);
      DigitsUnique(s[1..]);
      assert s == ['-'] + s[1..];
    } else {
      DigitsUnique(s);
    }
  }

  lemma {:induction false} PositiveValue(s: seq<char>)
    requires s != [] && (forall c :: c in s ==> IsDigit(c)) && s[0] != '0'
    ensures Value(s) > 0
    decreases |s|
  {
    assert s[0] in s;
    if |s| > 1 {
      PositiveValue(s[..|s| - 1]);
    }
  }

  lemma {:induction false} DigitsUnique(s: seq<char>)
    requires s != [] && (forall c :: c in s ==> IsDigit(c)) && (s[0] == '0' ==> s == "0")
    ensures Digits(Value(s)) == s
    decreases |s|
  {
    var last := s[|s| - 1];
    assert last in s;
    if |s| == 1 {
      assert s[..0] == [];
      assert Value(s) == DigitOf(last);
    } else {
      var rest := s[..|s| - 1];
      PositiveValue(rest);
      DigitsUnique(rest);
      assert Value(s) / 10 == Value(rest) && Value(s) % 10 == DigitOf(last);
    }
  }

  /** Ten digits are enough for the magnitude of every int32. */
  lemma LengthBound(n: nat)
    requires n <= 0x8000_0000
    ensures |Digits(n)| <= 10
  {
    DigitsShort(n, 10, 10_000_000_000);
  }

  lemma {:induction false} DigitsShort(n: nat, k: nat, bound: nat)
    requires 1 <= k <= 10 && n < bound && bound == Pow10(k)
    ensures |Digits(n)| <= k
    decreases k
  {
    if n >= 10 {
      DigitsShort(n / 10, k - 1, Pow10(k - 1));
    }
  }

  function Pow10(k: nat): nat {
    if k == 0 then 1 else 10 * Pow10(k - 1)
  }

  /** The digits still to be written; none are left of 0. */
  function Left(n: nat): seq<char> { if n == 0 then [] else Digits(n) }

  lemma LeftStep(n: nat)
    requires n > 0
    ensures Left(n) == Left(n / 10) + [DigitChar(n % 10)] && |Left(n)| >= 1
  {
  }

  /** On the negative side, C's remainder and quotient are the last digit and what is left, negated. */
  lemma NegativeSide(n: nat)
    requires n > 0
    ensures 0 - CMod(0 - n, 10) == n % 10 && CDiv(0 - n, 10) == 0 - n / 10
  {
  }

  /** itoa: the answer is the position in text where the terminated numeral starts. */
  method Itoa(text: array<char>, n: Int32) returns (loc: nat)
    requires text.Length == 12
    modifies text
    ensures loc <= 10 && text[11] == '\0' && text[loc..11] == Numeral(n)
  {
    hide Digits; hide Value; hide Canonical; hide CMod; hide CDiv; hide Left;
    loc := 11;
    text[11] := '\0';
    var i: Int32 := n;
    var neg := true;
    if i >= 0 {
      neg := false;
      i := 0 - i;
    }
    ghost var magnitude: nat := 0 - i;
    LeftShort(magnitude);
    while i != 0
      invariant i <= 0 && loc <= 11 && text[11] == '\0'
      invariant Left(magnitude) == Left(0 - i) + text[loc..11]
      decreases 0 - i
    {
      LeftStep(0 - i);
      NegativeSide(0 - i);
      ghost var written := text[loc..11];
      loc := loc - 1;
      text[loc] := '0' + (0 - CMod(i, 10)) as char;
      assert text[loc..11] == [DigitChar((0 - i) % 10)] + written;
      i := CDiv(i, 10);
    }
    LeftIs(magnitude);
    if loc == 11 {
      loc := loc - 1;
      text[loc] := '0';
      assert text[loc..11] == ['0'];
    }
    ghost var digits := text[loc..11];
    assert digits == Digits(magnitude);
    if neg {
      loc := loc - 1;
      text[loc] := '-';
      assert text[loc..11] == ['-'] + digits;
    }
  }

  lemma LeftShort(n: nat)
    requires n <= 0x8000_0000
    ensures |Left(n)| <= 10
  {
    LengthBound(n);
  }

  lemma LeftIs(n: nat)
    ensures Left(0) == [] && (n > 0 ==> Left(n) == Digits(n) && |Left(n)| >= 1)
    ensures Digits(0) == ['0']
  {
  }
}
