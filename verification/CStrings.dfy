/**
 C strings in character buffers, and their words.
 */
module CStrings {

  const NUL: char := '\0'

  predicate IsDigit(c: char) { '0' <= c <= '9' }

  /** The digit d as a character. */
  function DigitChar(d: nat): (c: char)
    requires d < 10
    ensures IsDigit(c) && (c - '0') as int == d
  {
    '0' + d as char
  }

  // ----- C strings in character buffers -----

  /** The buffer holds a terminator at or after i. */
  ghost predicate Terminated(t: seq<char>, i: nat) {
    exists e :: i <= e < |t| && t[e] == NUL
  }

  /** The first terminator at or after i. */
  ghost function End(t: seq<char>, i: nat): (e: nat)
    requires Terminated(t, i)
    ensures i <= e < |t| && t[e] == NUL && forall j :: i <= j < e ==> t[j] != NUL
    decreases |t| - i
  {
    if t[i] == NUL then i else End(t, i + 1)
  }

  lemma EndIs(t: seq<char>, i: nat, e: nat)
    requires i <= e < |t| && t[e] == NUL && forall j :: i <= j < e ==> t[j] != NUL
    ensures Terminated(t, i) && End(t, i) == e
  {
  }

  /** The string at i. */
  ghost function CStr(t: seq<char>, i: nat): (s: seq<char>)
    requires Terminated(t, i)
    ensures NUL !in s
  {
    t[i..End(t, i)]
  }

  /** The string at i is the one that stands there before a terminator and holds none. */
  lemma StringAt(t: seq<char>, i: nat, s: seq<char>)
    ensures Terminated(t, i) && CStr(t, i) == s <==>
            i + |s| < |t| && t[i..i + |s|] == s && t[i + |s|] == NUL && NUL !in s
  {
    if i + |s| < |t| && t[i..i + |s|] == s && t[i + |s|] == NUL && NUL !in s {
      forall j | i <= j < i + |s| ensures t[j] != NUL { assert t[j] == s[j - i]; }
      EndIs(t, i, i + |s|);
    }
  }

  /** The first n characters. */
  function Cut(s: seq<char>, n: nat): (r: seq<char>)
    ensures r <= s && |r| == if |s| <= n then |s| else n
  {
    if |s| <= n then s else s[..n]
  }

  // ----- Maximal runs of non-delimiters -----

  function RunLen(s: seq<char>, delims: seq<char>): (n: nat)
    ensures n <= |s| && (forall j :: 0 <= j < n ==> s[j] !in delims) && (n < |s| ==> s[n] in delims)
  {
    if s == [] || s[0] in delims then 0 else 1 + RunLen(s[1..], delims)
  }

  /** The maximal runs of s without delimiters, in order. */
  function Words(s: seq<char>, delims: seq<char>): (ws: seq<seq<char>>)
    ensures forall w :: w in ws ==> w != [] && forall c :: c in w ==> c !in delims
    decreases |s|
  {
    if s == [] then []
    else if s[0] in delims then Words(s[1..], delims)
    else
      var n := RunLen(s, delims);
      [s[..n]] + Words(s[n..], delims)
  }

  lemma {:induction false} WordsSkip(s: seq<char>, delims: seq<char>, k: nat)
    requires k <= |s| && forall j :: 0 <= j < k ==> s[j] in delims
    ensures Words(s, delims) == Words(s[k..], delims)
    decreases k
  {
    if k > 0 {
      WordsSkip(s[1..], delims, k - 1);
      assert s[1..][k - 1..] == s[k..];
    } else {
      assert s[0..] == s;
    }
  }

  lemma RunLenIs(s: seq<char>, delims: seq<char>, n: nat)
    requires n <= |s| && (forall j :: 0 <= j < n ==> s[j] !in delims) && (n < |s| ==> s[n] in delims)
    ensures RunLen(s, delims) == n
  {
  }

  /** The first word, and what is left behind the delimiter that ends it. */
  lemma FirstWord(s: seq<char>, delims: seq<char>, n: nat)
    requires 1 <= n <= |s| && (forall j :: 0 <= j < n ==> s[j] !in delims) && (n < |s| ==> s[n] in delims)
    ensures Words(s, delims) == [s[..n]] + Words(if n < |s| then s[n + 1..] else [], delims)
  {
    RunLenIs(s, delims, n);
    if n < |s| {
      WordsSkip(s[n..], delims, 1);
      assert s[n..][1..] == s[n + 1..];
    } else {
      assert s[n..] == [];
    }
  }

  /** Words joined by single separators. */
  function Join(ws: seq<seq<char>>, sep: char): seq<char> {
    if ws == [] then [] else if |ws| == 1 then ws[0] else ws[0] + [sep] + Join(ws[1..], sep)
  }

  /** Splitting undoes joining. */
  lemma {:induction false} SplitOfJoin(ws: seq<seq<char>>, sep: char)
    requires forall w :: w in ws ==> w != [] && sep !in w
    ensures Words(Join(ws, sep), [sep]) == ws
  {
    if ws != [] {
      var s, w := Join(ws, sep), ws[0];
      var rest := if |ws| == 1 then [] else [sep] + Join(ws[1..], sep);
      assert w in ws && s == w + rest;
      FirstWord(s, [sep], |w|);
      assert s[..|w|] == w;
      if |ws| > 1 {
        forall v | v in ws[1..] ensures v != [] && sep !in v { assert v in ws; }
        SplitOfJoin(ws[1..], sep);
        assert s[|w| + 1..] == Join(ws[1..], sep);
      }
      assert ws == [w] + ws[1..];
    }
  }
}
