/**
 The user library's strtok, strncpy and command-line parser.
 */
module Tokens {
  import opened CStrings

  const SCOMMAND_SIZE: nat := 1025
  const ARGUMENT_SIZE: nat := 512

  /** strncpy into the start of dest. */
  method Strncpy(dest: array<char>, src: array<char>, from: nat, count: nat)
    requires 1 <= count <= dest.Length && dest != src && Terminated(src[..], from)
    modifies dest
    ensures Terminated(dest[..], 0)
    ensures var s, d := CStr(src[..], from), CStr(dest[..], 0);
            && d <= s && |d| == (if |s| <= count - 1 then |s| else count - 1)
            && forall j :: |d| < j < dest.Length ==> dest[j] == old(dest[j])
  {
    ghost var s := CStr(src[..], from);
    ghost var e := End(src[..], from);
    var i := 0;
    while i < count - 1
      invariant 0 <= i <= count - 1 && i <= |s|
      invariant forall j :: 0 <= j < i ==> dest[j] == s[j]
      invariant forall j :: i <= j < dest.Length ==> dest[j] == old(dest[j])
    {
      assert src[from + i] == if i < |s| then s[i] else NUL;
      if src[from + i] == NUL {
        break;
      }
      dest[i] := src[from + i];
      i := i + 1;
    }
    dest[i] := NUL;
    forall j | 0 <= j < i ensures dest[..][j] != NUL {
      assert dest[j] == s[j] && s[j] in s;
    }
    EndIs(dest[..], 0, i);
    assert dest[..][0..i] == s[..i];
  }

  class Tokenizer {
    /** The global cursor sp: a buffer and a position in it, or no buffer when sp is null. */
    var text: array?<char>
    var pos: nat

    constructor ()
      ensures text == null
    {
      text, pos := null, 0;
    }

    /** The inner loop of strtok: where c occurs among the delimiters, or their number. */
    static method FindDelimiter(c: char, delims: seq<char>) returns (i: nat)
      ensures i <= |delims| && (i < |delims| <==> c in delims)
    {
      i := 0;
      while i < |delims|
        invariant i <= |delims| && c !in delims[..i]
      {
        if c == delims[i] {
          break;
        }
        i := i + 1;
      }
    }

    /** The first scan of strtok: move the cursor past delimiters. */
    method SkipDelimiters(buf: array<char>, delims: seq<char>)
      requires NUL !in delims && text == buf && Terminated(buf[..], pos)
      modifies this`pos
      ensures var e := End(buf[..], old(pos));
              old(pos) <= pos <= e && buf[pos] !in delims && forall j :: old(pos) <= j < pos ==> buf[j] in delims
    {
      ghost var e := End(buf[..], pos);
      var p := pos;
      while true
        invariant old(pos) <= p <= e && pos == old(pos)
        invariant forall j :: old(pos) <= j < p ==> buf[j] in delims
        decreases e - p
      {
        var i := FindDelimiter(buf[p], delims);
        if i == |delims| {
          pos := p;
          break;
        }
        assert p != e by { assert buf[..][e] == NUL; }
        p := p + 1;
      }
    }

    /** The second scan of strtok: move the cursor behind the token, and terminate the token where a delimiter
        ends it. */
    method CutToken(buf: array<char>, delims: seq<char>)
      requires NUL !in delims && text == buf && Terminated(buf[..], pos)
      requires buf[pos] != NUL && buf[pos] !in delims
      modifies this`pos, buf
      ensures TokenCut(old(buf[..]), old(pos), End(old(buf[..]), old(pos)), delims, buf[..], pos)
    {
      ghost var t, p := buf[..], pos;
      ghost var e := End(t, p);
      while buf[pos] != NUL
        invariant p <= pos <= e && buf[..] == t
        invariant forall j :: p <= j < pos ==> t[j] !in delims
        decreases e - pos
      {
        var i := FindDelimiter(buf[pos], delims);
        assert t[pos] == buf[pos];
        if i < |delims| {
          buf[pos] := NUL;
          pos := pos + 1;
          assert buf[..] == t[pos - 1 := NUL];
          return;
        }
        pos := pos + 1;
      }
      assert t[pos] == buf[pos];
    }

    /** strtok. The answer is a position in the buffer that is being scanned, or -1 for null. */
    method Strtok(str: array?<char>, delims: seq<char>) returns (start: int)
      requires NUL !in delims
      requires text == null && str != null ==> Terminated(str[..], 0)
      requires text != null ==> Terminated(text[..], pos)
      modifies this, if text != null then {text} else if str != null then {str} else {}
      ensures old(text) == null && str == null ==> start == -1 && text == null
      ensures old(text) != null ==> text == null || text == old(text)
      ensures old(text) != null ==>
                Scanned(old(text[..]), old(pos), delims, start, old(text)[..], if text == null then -1 else pos)
      ensures old(text) == null && str != null ==> text == null || text == str
      ensures old(text) == null && str != null ==>
                Scanned(old(str[..]), 0, delims, start, str[..], if text == null then -1 else pos)
    {
      if str == null && text == null {
        return -1;
      }
      if str != null && text == null {
        text, pos := str, 0;
      }
      var buf := text;
      SkipDelimiters(buf, delims);
      start := pos;
      if buf[pos] == NUL {
        text := null;
        return -1;
      }
      CutToken(buf, delims);
    }
  }

  /** The token at p of buffer t, whose string ends at e, was cut: the buffer is now u and the cursor at next. */
  ghost predicate TokenCut(t: seq<char>, p: nat, e: nat, delims: seq<char>, u: seq<char>, next: nat) {
    && p < next <= e < |t|
    && if next == e && t[e - 1] !in delims then
         u == t && forall j :: p <= j < e ==> t[j] !in delims
       else
         && u == t[next - 1 := NUL] && t[next - 1] in delims
         && forall j :: p <= j < next - 1 ==> t[j] !in delims
  }

  /** One call of strtok on buffer t from position from: it answers start, leaves the buffer u and the cursor at
      next. */
  ghost predicate Scanned(t: seq<char>, from: nat, delims: seq<char>, start: int, u: seq<char>, next: int) {
    && Terminated(t, from)
    && if start < 0 then
         start == -1 && next == -1 && u == t && forall j :: from <= j < End(t, from) ==> t[j] in delims
       else
         && from <= start < End(t, from) && (forall j :: from <= j < start ==> t[j] in delims)
         && t[start] !in delims && next >= 0 && TokenCut(t, start, End(t, from), delims, u, next)
  }

  /** One call of strtok takes the first word of what is left of the string. */
  lemma ScannedWords(t: seq<char>, from: nat, delims: seq<char>, start: int, u: seq<char>, next: int)
    requires NUL !in delims && Scanned(t, from, delims, start, u, next)
    ensures start < 0 ==> Words(CStr(t, from), delims) == []
    ensures start >= 0 ==>
              && Terminated(u, start) && next >= 0 && Terminated(u, next)
              && Words(CStr(t, from), delims) == [CStr(u, start)] + Words(CStr(u, next), delims)
  {
    var e := End(t, from);
    var s := t[from..e];
    if start < 0 {
      WordsSkip(s, delims, |s|);
    } else {
      WordsSkip(s, delims, start - from);
      assert s[start - from..] == t[start..e];
      TokenWords(t, start, e, delims, u, next);
    }
  }

  lemma CStrIs(t: seq<char>, i: nat, e: nat)
    requires i <= e < |t| && t[e] == NUL && forall j :: i <= j < e ==> t[j] != NUL
    ensures Terminated(t, i) && CStr(t, i) == t[i..e]
  {
    EndIs(t, i, e);
  }

  lemma TokenWords(t: seq<char>, p: nat, e: nat, delims: seq<char>, u: seq<char>, next: nat)
    requires NUL !in delims && TokenCut(t, p, e, delims, u, next) && t[p] !in delims
    requires t[e] == NUL && forall j :: p <= j < e ==> t[j] != NUL
    ensures Terminated(u, p) && Terminated(u, next)
    ensures Words(t[p..e], delims) == [CStr(u, p)] + Words(CStr(u, next), delims)
  {
    hide Words; hide CStr; hide Terminated;
    var s := t[p..e];
    CStrIs(u, next, e);
    if next == e && t[e - 1] !in delims {
      CStrIs(u, p, e);
      FirstWord(s, delims, |s|);
      assert s[..|s|] == u[p..e] && u[next..e] == [];
    } else {
      var n := next - 1 - p;
      CStrIs(u, p, next - 1);
      FirstWord(s, delims, n);
      assert s[..n] == u[p..next - 1];
      assert s[n + 1..] == u[next..e];
    }
  }

  /** The string at position i of a buffer, copied out. */
  method ReadString(buf: array<char>, i: nat) returns (s: seq<char>)
    requires Terminated(buf[..], i)
    ensures s == CStr(buf[..], i)
  {
    ghost var e := End(buf[..], i);
    s := [];
    var j := i;
    while buf[j] != NUL
      invariant i <= j <= e && s == buf[i..j]
      decreases e - j
    {
      assert buf[..][e] == NUL;
      s := s + [buf[j]];
      j := j + 1;
    }
    assert buf[..][j] == NUL;
  }

  /** Calling strtok until it answers null, from a null cursor, yields the words of the string in order and
      leaves the cursor null again. */
  method Drain(tk: Tokenizer, str: array<char>, delims: seq<char>) returns (words: seq<seq<char>>)
    requires tk.text == null && NUL !in delims && Terminated(str[..], 0)
    modifies tk, str
    ensures tk.text == null && words == Words(CStr(old(str[..]), 0), delims)
  {
    hide Words; hide CStr; hide Terminated; hide Scanned;
    ghost var all := Words(CStr(str[..], 0), delims);
    ghost var t := str[..];
    var start := tk.Strtok(str, delims);
    ScannedWords(t, 0, delims, start, str[..], if tk.text == null then -1 else tk.pos);
    words := [];
    while start >= 0
      invariant start < 0 ==> tk.text == null && words == all
      invariant start >= 0 ==>
        && tk.text == str && Terminated(str[..], start) && Terminated(str[..], tk.pos)
        && all == words + [CStr(str[..], start)] + Words(CStr(str[..], tk.pos), delims)
      decreases if start >= 0 then |all| - |words| else -1
    {
      var w := ReadString(str, start);
      words := words + [w];
      t := str[..];
      ghost var from := tk.pos;
      start := tk.Strtok(null, delims);
      ScannedWords(t, from, delims, start, str[..], if tk.text == null then -1 else tk.pos);
    }
  }

  // ----- hardikhyperionos_parse_command -----

  class CommandArgument {
    const argument: array<char>
    var next: CommandArgument?

    constructor ()
      ensures fresh(argument) && argument.Length == ARGUMENT_SIZE && next == null
    {
      argument := new char[ARGUMENT_SIZE](_ => NUL);
      next := null;
    }
  }

  /** root leads through the nodes in order, and then to null. */
  ghost predicate IsList(root: CommandArgument?, nodes: seq<CommandArgument>)
    reads nodes
  {
    && root == (if nodes == [] then null else nodes[0])
    && (forall i, j :: 0 <= i < j < |nodes| ==> nodes[i] != nodes[j] && nodes[i].argument != nodes[j].argument)
    && forall i :: 0 <= i < |nodes| ==> nodes[i].next == if i + 1 < |nodes| then nodes[i + 1] else null
  }

  /** The node's buffer holds the word as far as its first 511 characters. */
  ghost predicate NodeHolds(node: CommandArgument, word: seq<char>)
    reads node.argument
  {
    && Terminated(node.argument[..], 0) && CStr(node.argument[..], 0) <= word
    && |CStr(node.argument[..], 0)| == if |word| <= 511 then |word| else 511
  }

  /** What is left of the words after the first k: the token at start and the words behind the cursor; none if start is
      negative. */
  ghost predicate Remaining(all: seq<seq<char>>, k: nat, start: int, buf: seq<char>, next: int) {
    if start < 0 then k == |all| && next == -1
    else
      && k < |all| && next >= 0 && Terminated(buf, start) && Terminated(buf, next)
      && all[k..] == [CStr(buf, start)] + Words(CStr(buf, next), " ")
  }

  lemma RemainingHead(all: seq<seq<char>>, k: nat, start: int, buf: seq<char>, next: int)
    requires Remaining(all, k, start, buf, next)
    ensures start < 0 ==> k == |all|
    ensures start >= 0 ==> k < |all| && Terminated(buf, start) && all[k] == CStr(buf, start)
  {
    if start >= 0 { assert all[k..][0] == all[k]; }
  }

  lemma RemainingNext(all: seq<seq<char>>, k: nat, start: int, t: seq<char>, from: int, start': int, u: seq<char>,
                      next: int)
    requires start >= 0 && Remaining(all, k, start, t, from) && Scanned(t, from, " ", start', u, next)
    ensures Remaining(all, k + 1, start', u, next)
  {
    hide Words; hide End;
    ScannedWords(t, from, " ", start', u, next);
    assert all[k + 1..] == all[k..][1..];
  }

  lemma RemainingFirst(t: seq<char>, start: int, u: seq<char>, next: int)
    requires Scanned(t, 0, " ", start, u, next)
    ensures Remaining(Words(CStr(t, 0), " "), 0, start, u, next)
  {
    hide Words; hide End;
    ScannedWords(t, 0, " ", start, u, next);
  }

  /** hardikhyperionos_malloc of a node, filled with the token at start. */
  method NewArgument(buf: array<char>, start: nat) returns (node: CommandArgument)
    requires Terminated(buf[..], start)
    ensures fresh(node) && fresh(node.argument) && node.argument.Length == ARGUMENT_SIZE && node.next == null
    ensures NodeHolds(node, CStr(buf[..], start))
  {
    node := new CommandArgument();
    Strncpy(node.argument, buf, start, ARGUMENT_SIZE);
  }

  /** token = strtok(NULL, " "). */
  method NextToken(tk: Tokenizer, scommand: array<char>, ghost all: seq<seq<char>>, ghost k: nat, ghost start: int)
    returns (token: int)
    requires start >= 0 && tk.text == scommand && Remaining(all, k, start, scommand[..], tk.pos)
    modifies tk, scommand
    ensures tk.text == null || tk.text == scommand
    ensures token >= 0 <==> tk.text == scommand
    ensures Remaining(all, k + 1, token, scommand[..], if tk.text == null then -1 else tk.pos)
  {
    ghost var t, from := scommand[..], tk.pos;
    token := tk.Strtok(null, " ");
    RemainingNext(all, k, start, t, from, token, scommand[..], if tk.text == null then -1 else tk.pos);
  }

  /** current->next = node. */
  method Link(ghost root: CommandArgument, ghost nodes: seq<CommandArgument>,
              current: CommandArgument, node: CommandArgument)
    requires nodes != [] && current == nodes[|nodes| - 1] && IsList(root, nodes) && node.next == null
    requires forall i :: 0 <= i < |nodes| ==> nodes[i] != node && nodes[i].argument != node.argument
    modifies current`next
    ensures IsList(root, nodes + [node])
  {
    current.next := node;
  }

  /** A new node behind the last. */
  method AddArgument(ghost root: CommandArgument, ghost nodes: seq<CommandArgument>, current: CommandArgument,
                     buf: array<char>, start: nat) returns (node: CommandArgument)
    requires nodes != [] && current == nodes[|nodes| - 1] && IsList(root, nodes) && Terminated(buf[..], start)
    modifies current`next
    ensures fresh(node) && fresh(node.argument) && IsList(root, nodes + [node])
    ensures NodeHolds(node, CStr(buf[..], start))
  {
    hide Words; hide End; hide CStr; hide Terminated; hide NodeHolds; hide IsList;
    node := NewArgument(buf, start);
    Link(root, nodes, current, node);
  }

  /** hardikhyperionos_parse_command from a null cursor, when the first `mallocs` allocations succeed: the list of the
      space-separated words of the first 1024 characters, each cut to 511, up to the number of allocations. The cursor
      is null again exactly when there was an allocation for every word. */
  method ParseCommand(tk: Tokenizer, command: array<char>, max: int, mallocs: nat)
    returns (root: CommandArgument?, ghost nodes: seq<CommandArgument>)
    requires tk.text == null && Terminated(command[..], 0)
    modifies tk
    ensures max >= 1025 ==> root == null && nodes == [] && tk.text == null
    ensures max < 1025 ==>
              var words := Words(Cut(CStr(command[..], 0), 1024), " ");
              && |nodes| == (if |words| <= mallocs then |words| else mallocs)
              && IsList(root, nodes) && (forall i :: 0 <= i < |nodes| ==> NodeHolds(nodes[i], words[i]))
              && (tk.text == null <==> |words| <= mallocs)
    ensures max < 1025 && |CStr(command[..], 0)| <= 1024 ==>
              var words := Words(CStr(command[..], 0), " ");
              forall i :: 0 <= i < |nodes| && |words[i]| <= 511 ==>
                Terminated(nodes[i].argument[..], 0) && CStr(nodes[i].argument[..], 0) == words[i]
  {
    hide Words; hide End; hide Scanned; hide CStr; hide Terminated; hide Remaining; hide NodeHolds; hide IsList;
    root, nodes := null, [];
    if max >= SCOMMAND_SIZE {
      return;
    }
    var scommand := new char[SCOMMAND_SIZE](_ => NUL);
    Strncpy(scommand, command, 0, SCOMMAND_SIZE);
    CutIs(CStr(command[..], 0), CStr(scommand[..], 0), SCOMMAND_SIZE - 1);
    ghost var all := Words(CStr(scommand[..], 0), " ");
    ghost var t := scommand[..];
    var token := tk.Strtok(scommand, " ");
    RemainingFirst(t, token, scommand[..], if tk.text == null then -1 else tk.pos);
    RemainingHead(all, 0, token, scommand[..], if tk.text == null then -1 else tk.pos);
    ListOfNone();
    if token < 0 || mallocs == 0 {
      return;
    }
    root, nodes := BuildList(tk, scommand, all, token, mallocs);
    forall i | 0 <= i < |nodes| && |all[i]| <= 511
      ensures Terminated(nodes[i].argument[..], 0) && CStr(nodes[i].argument[..], 0) == all[i]
    {
      HoldsWhole(nodes[i], all[i]);
    }
  }

  lemma CutIs(s: seq<char>, d: seq<char>, n: nat)
    requires d <= s && |d| == if |s| <= n then |s| else n
    ensures d == Cut(s, n) && (|s| <= n ==> d == s)
  {
  }

  lemma HoldsWhole(node: CommandArgument, word: seq<char>)
    requires NodeHolds(node, word) && |word| <= 511
    ensures Terminated(node.argument[..], 0) && CStr(node.argument[..], 0) == word
  {
  }

  /** One node for the first token and, while allocations succeed, one for each that follows. */
  method BuildList(tk: Tokenizer, scommand: array<char>, ghost all: seq<seq<char>>, first: nat, mallocs: nat)
    returns (root: CommandArgument, ghost nodes: seq<CommandArgument>)
    requires tk.text == scommand && mallocs >= 1 && Remaining(all, 0, first, scommand[..], tk.pos)
    modifies tk, scommand
    ensures |nodes| == if |all| <= mallocs then |all| else mallocs
    ensures IsList(root, nodes) && forall i :: 0 <= i < |nodes| ==> NodeHolds(nodes[i], all[i])
    ensures tk.text == null <==> |all| <= mallocs
  {
    hide Words; hide End; hide Scanned; hide CStr; hide Terminated; hide Remaining; hide NodeHolds; hide IsList;
    RemainingHead(all, 0, first, scommand[..], tk.pos);
    root := NewArgument(scommand, first);
    nodes := [root];
    ListOfOne(root);
    var current := root;
    var token := NextToken(tk, scommand, all, 0, first);
    var used := 1;
    while token >= 0
      invariant fresh(current)
      invariant forall i :: 0 <= i < |nodes| ==> nodes[i].argument != scommand
      invariant used == |nodes| && 1 <= used <= mallocs && current == nodes[used - 1]
      invariant tk.text == null || tk.text == scommand
      invariant token >= 0 <==> tk.text == scommand
      invariant Remaining(all, used, token, scommand[..], if tk.text == null then -1 else tk.pos)
      invariant IsList(root, nodes) && |nodes| <= |all|
      invariant forall i :: 0 <= i < |nodes| ==> NodeHolds(nodes[i], all[i])
      decreases if token >= 0 then |all| - used else -1
    {
      RemainingHead(all, used, token, scommand[..], tk.pos);
      if used == mallocs {
        break;
      }
      current := AddArgument(root, nodes, current, scommand, token);
      nodes := nodes + [current];
      token := NextToken(tk, scommand, all, used, token);
      used := used + 1;
    }
    RemainingHead(all, used, token, scommand[..], if tk.text == null then -1 else tk.pos);
  }

  lemma ListOfNone()
    ensures IsList(null, [])
  {
  }

  lemma ListOfOne(root: CommandArgument)
    requires root.next == null
    ensures IsList(root, [root])
  {
  }
}
