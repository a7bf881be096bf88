/**
 The heap's block table as a value: one byte per 4096-byte block. Nothing else records an
 allocation, so this module also says what the bits of a table mean.
 */
module BlockTable {
  import opened Status

  type Entry = bv8

  const FREE: Entry := 0x00
  const TAKEN: Entry := 0x01
  const IS_FIRST: Entry := 0x40
  const HAS_NEXT: Entry := 0x80

  predicate HasNext(e: Entry) { e & HAS_NEXT != 0 }
  predicate IsFirst(e: Entry) { e & IS_FIRST != 0 }

  /** The k-th entry of a chain of n blocks. */
  function ChainEntry(k: nat, n: nat): (e: Entry)
    ensures e != FREE && (IsFirst(e) <==> k == 0) && (HasNext(e) <==> k + 1 < n)
  {
    if k == 0 then
      if n > 1 then TAKEN | IS_FIRST | HAS_NEXT else TAKEN | IS_FIRST
    else
      if k + 1 < n then TAKEN | HAS_NEXT else TAKEN
  }

  /** The bytes of a chain: 0x41 for a single block; else 0xC1 first, 0x81 in between, 0x01 last. A free block is 0. */
  lemma EntryBytes(k: nat, n: nat, e: Entry)
    requires k < n
    ensures ChainEntry(k, n) == if n == 1 then 0x41 else if k == 0 then 0xC1 else if k < n - 1 then 0x81 else 0x01
    ensures (HasNext(e) <==> e & 0x80 == 0x80) && (IsFirst(e) <==> e & 0x40 == 0x40) && (e == FREE <==> e == 0)
  {
  }

  function Chain(n: nat): (c: seq<Entry>)
    ensures |c| == n && forall k :: 0 <= k < n ==> c[k] == ChainEntry(k, n)
  {
    seq(n, k requires 0 <= k => ChainEntry(k, n))
  }

  // ----- First fit -----

  ghost predicate FreeRun(t: seq<Entry>, s: int, n: nat) {
    0 <= s && s + n <= |t| && forall i :: s <= i < s + n ==> t[i] == FREE
  }

  ghost predicate HasFit(t: seq<Entry>, n: nat) {
    exists s :: FreeRun(t, s, n)
  }

  predicate LastTaken(t: seq<Entry>) {
    |t| == 0 || t[|t| - 1] != FREE
  }

  /** The least start of n free blocks at or above from. */
  ghost function LeastFit(t: seq<Entry>, n: nat, from: nat): (s: nat)
    requires exists s :: from <= s && FreeRun(t, s, n)
    ensures from <= s && FreeRun(t, s, n)
    ensures forall j :: from <= j < s ==> !FreeRun(t, j, n)
    decreases |t| - from
  {
    if FreeRun(t, from, n) then from else LeastFit(t, n, from + 1)
  }

  /** Where the run of free blocks that ends just below e starts (e itself when it is empty). */
  function RunStart(t: seq<Entry>, e: nat): (s: nat)
    requires e <= |t|
    ensures s <= e
    ensures forall i :: s <= i < e ==> t[i] == FREE
    ensures s == 0 || t[s - 1] != FREE
  {
    if e > 0 && t[e - 1] == FREE then RunStart(t, e - 1) else e
  }

  lemma {:induction false} RunStartIsLeast(t: seq<Entry>, e: nat, s: nat, n: nat)
    requires e <= |t| && FreeRun(t, s, n)
    ensures s + n == e ==> RunStart(t, e) <= s
    decreases n
  {
    if n > 0 && s + n == e {
      RunStartIsLeast(t, e - 1, s, n - 1);
    }
  }

  /** What heap_get_start_block answers: the least fit, else the start of the trailing free run, else -ENOMEM. */
  ghost function FirstFit(t: seq<Entry>, n: nat): (r: int)
    ensures n >= 1 && HasFit(t, n) ==> FreeRun(t, r, n) && forall j :: 0 <= j < r ==> !FreeRun(t, j, n)
    ensures !(n >= 1 && HasFit(t, n)) ==>
              if LastTaken(t) then r == -ENOMEM
              else 0 <= r < |t| && FreeRun(t, r, |t| - r) && (r == 0 || t[r - 1] != FREE) && (n >= 1 ==> |t| - r < n)
  {
    if n >= 1 && HasFit(t, n) then
      var s :| FreeRun(t, s, n);
      LeastFit(t, n, 0)
    else if RunStart(t, |t|) == |t| then -ENOMEM
    else
      var r := RunStart(t, |t|);
      assert n >= 1 && |t| - r >= n ==> FreeRun(t, r, n);
      r
  }

  // ----- Marking and freeing -----

  /** The table after heap_mark_blocks_taken(s, n), cut at the end of the table. */
  function Marked(t: seq<Entry>, s: nat, n: nat): (r: seq<Entry>)
    requires s <= |t|
    ensures |r| == |t|
    ensures forall i :: 0 <= i < |t| ==> r[i] == if s <= i < s + n then ChainEntry(i - s, n) else t[i]
  {
    if s + n <= |t| then t[..s] + Chain(n) + t[s + n..] else t[..s] + Chain(n)[..|t| - s]
  }

  /** The table after heap_mark_blocks_free(i): clear entries from i while they say that one more follows. */
  function Freed(t: seq<Entry>, i: nat): (r: seq<Entry>)
    ensures |r| == |t|
    decreases |t| - i
  {
    if i >= |t| then t
    else if HasNext(t[i]) then Freed(t[i := FREE], i + 1)
    else t[i := FREE]
  }

  lemma {:induction false} FreedClearsChain(t: seq<Entry>, i: nat, len: nat)
    requires len >= 1 && i + len <= |t|
    requires forall j :: i <= j < i + len - 1 ==> HasNext(t[j])
    requires !HasNext(t[i + len - 1])
    ensures forall j :: 0 <= j < |t| ==> Freed(t, i)[j] == if i <= j < i + len then FREE else t[j]
    decreases len
  {
    if len > 1 {
      assert HasNext(t[i]);
      FreedClearsChain(t[i := FREE], i + 1, len - 1);
    }
  }

  /** Freeing a block that has just been allocated restores the table. */
  lemma FreeUndoesMark(t: seq<Entry>, s: nat, n: nat)
    requires n >= 1 && FreeRun(t, s, n)
    ensures Freed(Marked(t, s, n), s) == t
  {
    FreedClearsChain(Marked(t, s, n), s, n);
  }

  // ----- What a table means: the live allocations, head block to length -----

  type Live = map<nat, nat>

  predicate Covers(live: Live, s: nat, i: int) {
    s in live && s <= i < s + live[s]
  }

  ghost predicate Holds(t: seq<Entry>, live: Live) {
    && (forall s :: s in live ==> 1 <= live[s] && s + live[s] <= |t|)
    && (forall s: nat, i :: Covers(live, s, i) && i < |t| ==> t[i] == ChainEntry(i - s, live[s]))
    && (forall i :: 0 <= i < |t| && t[i] != FREE ==> exists s :: Covers(live, s, i))
  }

  /** Live allocations never overlap: a head carries FIRST and no other block of a chain does. */
  lemma LiveDisjoint(t: seq<Entry>, live: Live, a: nat, b: nat, i: int)
    requires Holds(t, live) && Covers(live, a, i) && Covers(live, b, i)
    ensures a == b
  {
    if a < b {
      assert Covers(live, a, b) && Covers(live, b, b);
    } else if b < a {
      assert Covers(live, b, a) && Covers(live, a, a);
    }
  }

  /** The bits determine the live allocations. */
  lemma HoldsUnique(t: seq<Entry>, a: Live, b: Live)
    requires Holds(t, a) && Holds(t, b)
    ensures a == b
  {
    forall s ensures s in a <==> s in b {
      if s in a { HeadIsLive(t, a, b, s); }
      if s in b { HeadIsLive(t, b, a, s); }
    }
    forall s | s in a ensures a[s] == b[s] {
      if a[s] < b[s] {
        assert Covers(a, s, s + a[s] - 1) && Covers(b, s, s + a[s] - 1);
      } else if b[s] < a[s] {
        assert Covers(b, s, s + b[s] - 1) && Covers(a, s, s + b[s] - 1);
      }
    }
  }

  lemma HeadIsLive(t: seq<Entry>, a: Live, b: Live, s: nat)
    requires Holds(t, a) && Holds(t, b) && s in a
    ensures s in b
  {
    assert Covers(a, s, s);
    var h :| Covers(b, h, s);
  }

  /** The live allocations determine the table. */
  lemma HoldsDetermines(t: seq<Entry>, u: seq<Entry>, live: Live)
    requires Holds(t, live) && Holds(u, live) && |t| == |u|
    ensures t == u
  {
    forall i | 0 <= i < |t| ensures t[i] == u[i] {
      if s :| Covers(live, s, i) {
        assert t[i] == ChainEntry(i - s, live[s]);
      }
    }
  }

  // ----- The two operations keep the meaning -----

  lemma MarkKeeps(t: seq<Entry>, live: Live, s: nat, n: nat)
    requires Holds(t, live) && n >= 1 && FreeRun(t, s, n)
    ensures s !in live
    ensures Holds(Marked(t, s, n), live[s := n])
  {
    var u, l := Marked(t, s, n), live[s := n];
    assert s in live ==> Covers(live, s, s);
    forall h: nat, i | Covers(l, h, i) ensures u[i] == ChainEntry(i - h, l[h]) {
      if h != s { assert Covers(live, h, i); }
    }
    forall i | 0 <= i < |u| && u[i] != FREE ensures exists h :: Covers(l, h, i) {
      if s <= i < s + n {
        assert Covers(l, s, i);
      } else {
        var h :| Covers(live, h, i);
        assert Covers(l, h, i);
      }
    }
  }

  lemma FreedExact(t: seq<Entry>, live: Live, s: nat)
    requires Holds(t, live) && s in live
    ensures forall i :: 0 <= i < |t| ==> Freed(t, s)[i] == if s <= i < s + live[s] then FREE else t[i]
  {
    forall j | s <= j < s + live[s] ensures HasNext(t[j]) <==> j < s + live[s] - 1 {
      assert Covers(live, s, j);
    }
    FreedClearsChain(t, s, live[s]);
  }

  lemma ClearKeeps(t: seq<Entry>, live: Live, s: nat, u: seq<Entry>)
    requires Holds(t, live) && s in live && |u| == |t|
    requires forall i :: 0 <= i < |t| ==> u[i] == if s <= i < s + live[s] then FREE else t[i]
    ensures Holds(u, live - {s})
  {
    var l := live - {s};
    forall h: nat, i | Covers(l, h, i) ensures u[i] == ChainEntry(i - h, l[h]) {
      assert Covers(live, h, i);
      if s <= i < s + live[s] {
        LiveDisjoint(t, live, s, h, i);
        assert false;
      }
    }
    forall i | 0 <= i < |u| && u[i] != FREE ensures exists h :: Covers(l, h, i) {
      var h :| Covers(live, h, i);
      assert Covers(l, h, i);
    }
  }

  /** Freeing a live allocation releases exactly its own chain. */
  lemma FreeKeeps(t: seq<Entry>, live: Live, s: nat)
    requires Holds(t, live) && s in live
    ensures Holds(Freed(t, s), live - {s})
    ensures forall i :: 0 <= i < |t| ==> Freed(t, s)[i] == if s <= i < s + live[s] then FREE else t[i]
  {
    FreedExact(t, live, s);
    ClearKeeps(t, live, s, Freed(t, s));
  }

  /** A set of one-block allocations. */
  function Singles(p: set<nat>): Live {
    map b | b in p :: 1
  }

  lemma AddSingles(t: seq<Entry>, live: Live, p: set<nat>, u: seq<Entry>)
    requires Holds(t, live) && |u| == |t|
    requires forall b :: b in p ==> b < |t| && t[b] == FREE
    requires forall i :: 0 <= i < |t| ==> u[i] == if i in p then ChainEntry(0, 1) else t[i]
    ensures live.Keys !! p
    ensures Holds(u, live + Singles(p))
  {
    var l := live + Singles(p);
    forall b | b in live ensures b !in p {
      assert Covers(live, b, b);
    }
    forall h: nat, i | Covers(l, h, i) ensures u[i] == ChainEntry(i - h, l[h]) {
      if h in p {
        assert i == h;
      } else {
        assert Covers(live, h, i) && i !in p;
      }
    }
    forall i | 0 <= i < |u| && u[i] != FREE ensures exists h :: Covers(l, h, i) {
      if i in p {
        assert Covers(l, i, i);
      } else {
        var h :| Covers(live, h, i);
        assert Covers(l, h, i);
      }
    }
  }

  lemma RemoveSingles(t: seq<Entry>, live: Live, p: set<nat>, u: seq<Entry>)
    requires Holds(t, live) && |u| == |t|
    requires forall b :: b in p ==> b in live && live[b] == 1
    requires forall i :: 0 <= i < |t| ==> u[i] == if i in p then FREE else t[i]
    ensures Holds(u, live - p)
  {
    var l := live - p;
    forall h: nat, i | Covers(l, h, i) ensures u[i] == ChainEntry(i - h, l[h]) {
      assert Covers(live, h, i);
      if i in p {
        assert Covers(live, i, i);
        LiveDisjoint(t, live, h, i, i);
        assert false;
      }
    }
    forall i | 0 <= i < |u| && u[i] != FREE ensures exists h :: Covers(l, h, i) {
      var h :| Covers(live, h, i);
      assert Covers(l, h, i);
    }
  }

  // ----- Whole runs -----

  datatype Op = Alloc(blocks: nat) | Release(start: nat)

  datatype State = State(table: seq<Entry>, live: Live)

  /** Every request is for at least one block and either fits or finds the last block taken; every free names a live
      block. */
  ghost predicate Legal(st: State, op: Op) {
    match op
    case Alloc(n) => n >= 1 && (HasFit(st.table, n) || LastTaken(st.table))
    case Release(s) => s in st.live
  }

  /** One call of heap_malloc_blocks or heap_mark_blocks_free, with the caller's own record of what it holds. */
  ghost function Step(st: State, op: Op): (r: State)
    ensures |r.table| == |st.table|
  {
    match op
    case Alloc(n) =>
      var s := FirstFit(st.table, n);
      if s < 0 then st else State(Marked(st.table, s, n), st.live[s := n])
    case Release(s) => State(Freed(st.table, s), st.live - {s})
  }

  ghost predicate LegalRun(st: State, ops: seq<Op>)
    decreases |ops|
  {
    ops == [] || (Legal(st, ops[0]) && LegalRun(Step(st, ops[0]), ops[1..]))
  }

  ghost function Run(st: State, ops: seq<Op>): State
    decreases |ops|
  {
    if ops == [] then st else Run(Step(st, ops[0]), ops[1..])
  }

  lemma StepKeeps(st: State, op: Op)
    requires Holds(st.table, st.live) && Legal(st, op)
    ensures Holds(Step(st, op).table, Step(st, op).live)
  {
    match op
    case Alloc(n) =>
      if HasFit(st.table, n) { MarkKeeps(st.table, st.live, FirstFit(st.table, n), n); }
    case Release(s) => FreeKeeps(st.table, st.live, s);
  }

  /** Every table reached by legal calls holds exactly the allocations the callers hold. */
  lemma {:induction false} RunKeeps(st: State, ops: seq<Op>)
    requires Holds(st.table, st.live) && LegalRun(st, ops)
    ensures Holds(Run(st, ops).table, Run(st, ops).live)
    decreases |ops|
  {
    if ops != [] {
      StepKeeps(st, ops[0]);
      RunKeeps(Step(st, ops[0]), ops[1..]);
    }
  }

  function AllFree(total: nat): (t: seq<Entry>) {
    seq(total, _ => FREE)
  }

  lemma FreshHolds(total: nat)
    ensures Holds(AllFree(total), map[])
  {
  }

  function Releases(order: seq<nat>): (ops: seq<Op>)
    ensures |ops| == |order|
  {
    seq(|order|, i requires 0 <= i < |order| => Release(order[i]))
  }

  /** After any legal run, freeing every live allocation, in any order, is legal and gives the all-free table. */
  lemma FreeAllInAnyOrder(total: nat, ops: seq<Op>, order: seq<nat>)
    requires var st := State(AllFree(total), map[]);
             && LegalRun(st, ops)
             && (forall s :: s in order <==> s in Run(st, ops).live)
             && (forall i, j :: 0 <= i < j < |order| ==> order[i] != order[j])
    ensures var st := Run(State(AllFree(total), map[]), ops);
            LegalRun(st, Releases(order)) && Run(st, Releases(order)).table == AllFree(total)
  {
    var st := State(AllFree(total), map[]);
    FreshHolds(total);
    RunKeeps(st, ops);
    RunLength(st, ops);
    Drain(Run(st, ops), order);
  }

  lemma {:induction false} RunLength(st: State, ops: seq<Op>)
    ensures |Run(st, ops).table| == |st.table|
    decreases |ops|
  {
    if ops != [] { RunLength(Step(st, ops[0]), ops[1..]); }
  }

  lemma {:induction false} Drain(st: State, order: seq<nat>)
    requires Holds(st.table, st.live)
    requires forall s :: s in order <==> s in st.live
    requires forall i, j :: 0 <= i < j < |order| ==> order[i] != order[j]
    ensures LegalRun(st, Releases(order))
    ensures Run(st, Releases(order)).table == AllFree(|st.table|)
    decreases |order|
  {
    if order == [] {
      assert st.live == map[];
      FreshHolds(|st.table|);
      HoldsDetermines(st.table, AllFree(|st.table|), map[]);
    } else {
      var op, rest := Release(order[0]), order[1..];
      assert order[0] in order;
      StepKeeps(st, op);
      var st' := Step(st, op);
      forall s ensures s in rest <==> s in st'.live {
        assert s in order <==> s == order[0] || s in rest;
      }
      Drain(st', rest);
      assert Releases(order)[1..] == Releases(rest);
    }
  }

  // ----- A table that holds some allocations is a concatenation of free blocks and chains -----

  /** A free block is written 0, a chain of n blocks n. */
  function Layout(parts: seq<nat>): seq<Entry> {
    if parts == [] then [] else (if parts[0] == 0 then [FREE] else Chain(parts[0])) + Layout(parts[1..])
  }

  lemma TableIsConcatenation(t: seq<Entry>, live: Live)
    requires Holds(t, live)
    ensures exists parts :: t == Layout(parts)
  {
    var parts := PartsFrom(t, live, 0);
    assert t[0..] == t;
  }

  /** A live allocation reads as a chain of its length. */
  lemma ChainAt(t: seq<Entry>, live: Live, i: nat)
    requires Holds(t, live) && i in live
    ensures i + live[i] <= |t| && t[i..] == Chain(live[i]) + t[i + live[i]..]
  {
    var n := live[i];
    assert Covers(live, i, i + n - 1);
    forall k | 0 <= k < n ensures t[i + k] == Chain(n)[k] { assert Covers(live, i, i + k); }
    assert t[i..i + n] == Chain(n);
    assert t[i..] == t[i..i + n] + t[i + n..];
  }

  lemma {:induction false} PartsFrom(t: seq<Entry>, live: Live, i: nat) returns (parts: seq<nat>)
    requires Holds(t, live) && i <= |t|
    requires forall s :: s in live ==> s >= i || s + live[s] <= i
    ensures t[i..] == Layout(parts)
    decreases |t| - i
  {
    if i == |t| {
      return [];
    }
    if t[i] == FREE {
      forall s | s in live ensures s >= i + 1 || s + live[s] <= i + 1 {
        if s == i { assert Covers(live, s, s); }
      }
      var rest := PartsFrom(t, live, i + 1);
      parts := [0] + rest;
      assert t[i..] == [FREE] + t[i + 1..];
    } else {
      var s :| Covers(live, s, i);
      assert s == i;
      var n := live[i];
      forall h | h in live ensures h >= i + n || h + live[h] <= i + n {
        if i < h < i + n {
          assert Covers(live, h, h) && Covers(live, i, h);
          LiveDisjoint(t, live, i, h, h);
        }
      }
      var rest := PartsFrom(t, live, i + n);
      parts := [n] + rest;
      ChainAt(t, live, i);
    }
  }

  // ----- Where the allocator falls short of its intent -----

  /** Line 128 tests (entry != FREE) & 0x0f; on every table that holds some allocations this is the intended (entry &
      0x0f) != FREE. */
  lemma TypeTestAgrees(t: seq<Entry>, live: Live, i: nat)
    requires Holds(t, live) && i < |t|
    ensures t[i] != FREE <==> t[i] & 0x0F != FREE
  {
    if t[i] != FREE {
      var s :| Covers(live, s, i);
      EntryType(i - s, live[s]);
    }
  }

  lemma EntryType(k: nat, n: nat)
    ensures ChainEntry(k, n) & 0x0F == TAKEN
  {
  }

  /** For a nonzero request that is answered, the table afterwards holds any set of allocations at all exactly
      when the request fitted; otherwise the last entry of the table promises a block beyond it. */
  lemma AnswerSoundIffFits(t: seq<Entry>, live: Live, n: nat)
    requires Holds(t, live) && n >= 1 && FirstFit(t, n) >= 0
    ensures (exists l :: Holds(Marked(t, FirstFit(t, n), n), l)) <==> HasFit(t, n)
  {
    var s := FirstFit(t, n);
    var u := Marked(t, s, n);
    if HasFit(t, n) {
      MarkKeeps(t, live, s, n);
    } else {
      assert HasNext(u[|t| - 1]) && u[|t| - 1] == ChainEntry(|t| - 1 - s, n);
      forall l | Holds(u, l) ensures false {
        LastEndsChain(u, l);
      }
    }
  }

  lemma LastEndsChain(t: seq<Entry>, live: Live)
    requires Holds(t, live) && |t| > 0
    ensures !HasNext(t[|t| - 1])
  {
    var last := |t| - 1;
    if t[last] != FREE {
      var h :| Covers(live, h, last);
    }
  }

  /** A request is answered soundly, with a block that the caller holds afterwards, exactly when it is for at least one
      block and fits. */
  lemma AnswerHeldIffFits(t: seq<Entry>, live: Live, n: nat)
    requires Holds(t, live) && FirstFit(t, n) >= 0
    ensures (exists l :: Holds(Marked(t, FirstFit(t, n), n), l) && FirstFit(t, n) in l) <==> n >= 1 && HasFit(t, n)
  {
    var s := FirstFit(t, n);
    if n == 0 {
      assert Marked(t, s, 0) == t && t[s] == FREE;
      forall l | Holds(t, l) && s in l ensures false {
        assert Covers(l, s, s);
      }
    } else if HasFit(t, n) {
      MarkKeeps(t, live, s, n);
      assert s in live[s := n];
    } else {
      AnswerSoundIffFits(t, live, n);
    }
  }

  /** A request for more blocks than the table has is answered on a fresh heap, with block 0, and does not fit. */
  lemma AnsweredWithoutFit(t: seq<Entry>, n: nat)
    requires |t| >= 1 && t == AllFree(|t|) && n > |t|
    ensures FirstFit(t, n) == 0 && !HasFit(t, n)
    ensures !exists l :: Holds(Marked(t, FirstFit(t, n), n), l)
  {
    FreshHolds(|t|);
    AnswerSoundIffFits(t, map[], n);
  }

  /** A zero-block request marks nothing and is answered with the start of the trailing free run. The next request, for
      m blocks, is given that same block exactly when no run of m free blocks starts below it; the block is then sound
      for it when m blocks fit there, and freeing the first answer releases the second allocation. */
  lemma ZeroRequestAliases(t: seq<Entry>, m: nat)
    requires FirstFit(t, 0) >= 0 && m >= 1
    ensures var s := FirstFit(t, 0);
            && Marked(t, s, 0) == t
            && (FirstFit(Marked(t, s, 0), m) == s <==> forall j :: 0 <= j < s ==> !FreeRun(t, j, m))
            && (FirstFit(t, m) == s && HasFit(t, m) <==> s + m <= |t| && forall j :: 0 <= j < s ==> !FreeRun(t, j, m))
            && (s + m <= |t| ==> Freed(Marked(Marked(t, s, 0), s, m), s) == t)
  {
    var s := FirstFit(t, 0);
    assert Marked(t, s, 0) == t;
    if s + m <= |t| {
      assert FreeRun(t, s, m);
      FreeUndoesMark(t, s, m);
    }
    forall j | s < j && FreeRun(t, j, m) ensures FreeRun(t, s, m) {
    }
  }
}
