/**
 keyboard.c: the ring buffer of typed characters that each process has.
 */
module Keyboard {
  import opened CStrings

  const SIZE: nat := 1024

  // ----- The queue -----

  datatype Op = Push(c: char) | Pop | Backspace

  /** One operation on a queue: the answer (NUL when there is none) and the queue afterwards. */
  function QueueStep(q: seq<char>, op: Op): (char, seq<char>) {
    match op
    case Push(c) => (NUL, if c == NUL then q else q + [c])
    case Pop => if q == [] then (NUL, q) else (q[0], q[1..])
    case Backspace => (NUL, if q == [] then q else q[..|q| - 1])
  }

  /** At most 1024 characters are outstanding, and only a nonempty queue is shortened. */
  predicate Legal(q: seq<char>, op: Op) {
    match op
    case Push(c) => c == NUL || |q| < SIZE
    case Pop => true
    case Backspace => q != []
  }

  predicate LegalRun(q: seq<char>, ops: seq<Op>)
    decreases |ops|
  {
    ops == [] || (Legal(q, ops[0]) && LegalRun(QueueStep(q, ops[0]).1, ops[1..]))
  }

  function QueueRun(q: seq<char>, ops: seq<Op>): (seq<char>, seq<char>)
    decreases |ops|
  {
    if ops == [] then ([], q)
    else
      var (c, q1) := QueueStep(q, ops[0]);
      var (cs, q2) := QueueRun(q1, ops[1..]);
      (if c == NUL then cs else [c] + cs, q2)
  }

  function Pushed(ops: seq<Op>): seq<char> {
    if ops == [] then []
    else (if ops[0].Push? && ops[0].c != NUL then [ops[0].c] else []) + Pushed(ops[1..])
  }

  /** Nothing is lost or reordered: without backspaces, what was popped and what is left is what was there and what was
      pushed. */
  lemma {:induction false} FirstInFirstOut(q: seq<char>, ops: seq<Op>)
    requires NUL !in q && forall op :: op in ops ==> !op.Backspace?
    ensures QueueRun(q, ops).0 + QueueRun(q, ops).1 == q + Pushed(ops)
    decreases |ops|
  {
    if ops != [] {
      var op, rest := ops[0], ops[1..];
      assert op in ops;
      var (c, q1) := QueueStep(q, op);
      FirstInFirstOut(q1, rest);
      var r, p := QueueRun(q1, rest), Pushed(rest);
      assert QueueRun(q, ops) == (if c == NUL then r.0 else [c] + r.0, r.1);
      assert Pushed(ops) == (if op.Push? && op.c != NUL then [op.c] else []) + p;
      hide QueueRun;
      hide Pushed;
      if op.Push? && op.c != NUL {
        Associative(q, [op.c], p);
      } else if op.Pop? && q != [] {
        assert q[0] in q && q == [c] + q1;
        Associative([c], r.0, r.1);
        Associative([c], q1, p);
      }
    }
  }

  lemma Associative(a: seq<char>, b: seq<char>, c: seq<char>)
    ensures (a + b) + c == a + (b + c)
  {
  }

  // ----- The ring -----

  lemma CellsDistinct(a: int, b: int)
    requires a < b < a + SIZE
    ensures a % SIZE != b % SIZE
  {
  }

  /** The cell of position k. */
  function Cell(cells: seq<char>, k: int): char
    requires |cells| == SIZE
  {
    cells[k % SIZE]
  }

  /** Writing one cell leaves the others of any window of 1024 positions alone. */
  lemma OthersKept(cells: seq<char>, k: int, c: char)
    requires |cells| == SIZE
    ensures Cell(cells[k % SIZE := c], k) == c
    ensures forall j :: k - SIZE < j < k + SIZE && j != k ==> Cell(cells[k % SIZE := c], j) == Cell(cells, j)
  {
    forall j | k - SIZE < j < k + SIZE && j != k ensures Cell(cells[k % SIZE := c], j) == Cell(cells, j) {
      if j < k { CellsDistinct(j, k); } else { CellsDistinct(k, j); }
    }
  }

  /** The cells from head to tail are nonzero, and all others are zero. */
  ghost predicate Ring(cells: seq<char>, head: int, tail: int) {
    && |cells| == SIZE && 0 <= tail - head <= SIZE
    && (forall k :: head <= k < tail ==> Cell(cells, k) != NUL)
    && (forall k :: tail <= k < head + SIZE ==> Cell(cells, k) == NUL)
  }

  ghost function Contents(cells: seq<char>, head: int, tail: int): (q: seq<char>)
    requires Ring(cells, head, tail)
    ensures |q| == tail - head && NUL !in q
    ensures forall i :: 0 <= i < |q| ==> q[i] == Cell(cells, head + i)
  {
    seq(tail - head, i requires 0 <= i < tail - head => Cell(cells, head + i))
  }

  lemma PushRing(cells: seq<char>, head: int, tail: int, c: char)
    requires Ring(cells, head, tail) && tail - head < SIZE && c != NUL
    ensures Ring(cells[tail % SIZE := c], head, tail + 1)
    ensures Contents(cells[tail % SIZE := c], head, tail + 1) == Contents(cells, head, tail) + [c]
  {
    OthersKept(cells, tail, c);
    var after := cells[tail % SIZE := c];
    forall k | head <= k < head + SIZE ensures Cell(after, k) == if k == tail then c else Cell(cells, k) {
    }
  }

  lemma PopRing(cells: seq<char>, head: int, tail: int)
    requires Ring(cells, head, tail) && head < tail
    ensures Ring(cells[head % SIZE := NUL], head + 1, tail)
    ensures Contents(cells[head % SIZE := NUL], head + 1, tail) == Contents(cells, head, tail)[1..]
    ensures Contents(cells, head, tail)[0] == Cell(cells, head)
  {
    OthersKept(cells, head, NUL);
    var after := cells[head % SIZE := NUL];
    forall k | head <= k < head + SIZE ensures Cell(after, k) == if k == head then NUL else Cell(cells, k) {
    }
    assert (head + SIZE) % SIZE == head % SIZE;
    assert Cell(after, head + SIZE) == NUL;
  }

  lemma BackspaceRing(cells: seq<char>, head: int, tail: int)
    requires Ring(cells, head, tail) && head < tail
    ensures Ring(cells[(tail - 1) % SIZE := NUL], head, tail - 1)
    ensures Contents(cells[(tail - 1) % SIZE := NUL], head, tail - 1) ==
            Contents(cells, head, tail)[..tail - 1 - head]
  {
    OthersKept(cells, tail - 1, NUL);
    var after := cells[(tail - 1) % SIZE := NUL];
    forall k | head <= k < head + SIZE ensures Cell(after, k) == if k == tail - 1 then NUL else Cell(cells, k) {
    }
  }

  class KeyboardBuffer {
    const buffer: array<char>
    var tail: int
    var head: int

    constructor ()
      ensures Valid() && Queue() == [] && fresh(buffer) && buffer.Length == 1024
    {
      buffer := new char[SIZE](_ => NUL);
      tail, head := 0, 0;
    }

    ghost predicate Valid()
      reads this, buffer
    {
      Ring(buffer[..], head, tail)
    }

    ghost function Queue(): (q: seq<char>)
      requires Valid()
      reads this, buffer
      ensures |q| == tail - head
    {
      Contents(buffer[..], head, tail)
    }

    /** keyboard_get_tail_index. */
    method TailIndex() returns (i: nat)
      ensures i == tail % SIZE < SIZE
    {
      i := tail % SIZE;
    }

    /** keyboard_push on the current process. With 1024 characters outstanding the oldest cell is overwritten. */
    method Push(c: char)
      requires buffer.Length == SIZE
      modifies this`tail, buffer
      ensures old(Valid()) && c == NUL ==> Valid() && Queue() == old(Queue())
      ensures old(Valid()) && c != NUL && old(tail - head) < SIZE ==> Valid() && Queue() == old(Queue()) + [c]
      ensures c == NUL ==> tail == old(tail) && buffer[..] == old(buffer[..])
      ensures c != NUL ==> tail == old(tail) + 1 && buffer[..] == old(buffer[..])[old(tail) % SIZE := c]
    {
      if c == NUL {
        return;
      }
      var i := TailIndex();
      if Valid() && tail - head < SIZE {
        PushRing(buffer[..], head, tail, c);
      }
      ghost var cells := buffer[..];
      buffer[i] := c;
      assert buffer[..] == cells[i := c];
      tail := tail + 1;
    }

    /** keyboard_pop; 0 when there is nothing to pop. */
    method Pop() returns (c: char)
      requires buffer.Length == SIZE
      modifies this`head, buffer
      ensures c == old(buffer[head % SIZE])
      ensures old(Valid()) ==>
                && Valid() && (c == NUL <==> old(Queue()) == [])
                && c == QueueStep(old(Queue()), Op.Pop).0 && Queue() == QueueStep(old(Queue()), Op.Pop).1
    {
      var i := head % SIZE;
      c := buffer[i];
      ghost var cells := buffer[..];
      assert c == Cell(cells, head);
      if c == NUL {
        return NUL;
      }
      if Valid() { PopRing(cells, head, tail); }
      buffer[i] := NUL;
      assert buffer[..] == cells[i := NUL];
      head := head + 1;
    }

    /** keyboard_backspace. */
    method Backspace()
      requires Valid()
      modifies this`tail, buffer
      ensures tail == old(tail) - 1 && buffer[..] == old(buffer[..])[tail % SIZE := NUL]
      ensures old(Queue()) != [] ==> Valid() && Queue() == old(Queue())[..|old(Queue())| - 1]
    {
      if head < tail {
        BackspaceRing(buffer[..], head, tail);
      }
      ghost var cells := buffer[..];
      tail := tail - 1;
      var i := TailIndex();
      buffer[i] := NUL;
      assert buffer[..] == cells[i := NUL];
    }

    /** Any legal run behaves as the queue. */
    method RunOps(ops: seq<Op>) returns (out: seq<char>)
      requires Valid() && LegalRun(Queue(), ops)
      modifies this, buffer
      ensures Valid() && out == QueueRun(old(Queue()), ops).0 && Queue() == QueueRun(old(Queue()), ops).1
      decreases |ops|
    {
      out := [];
      if ops == [] {
        return;
      }
      var c := NUL;
      match ops[0] {
        case Push(d) => Push(d);
        case Pop => c := Pop();
        case Backspace => Backspace();
      }
      out := RunOps(ops[1..]);
      if c != NUL {
        out := [c] + out;
      }
    }

    /** With 1024 characters outstanding one more push destroys the oldest: the next pop answers the newest. */
    method PushWhenFull(c: char) returns (d: char)
      requires Valid() && |Queue()| == SIZE && c != NUL
      modifies this, buffer
      ensures d == c
    {
      Push(c);
      d := Pop();
    }

    /** A backspace on the empty buffer swallows the next character: afterwards there is nothing to pop. */
    method BackspaceWhenEmpty(c: char) returns (d: char)
      requires Valid() && Queue() == [] && c != NUL
      modifies this, buffer
      ensures d == NUL
    {
      ghost var cells := buffer[..];
      Backspace();
      OthersKept(cells, tail, NUL);
      OthersKept(buffer[..], tail, c);
      Push(c);
      assert Cell(cells, head) == NUL && Cell(buffer[..], head) == NUL;
      d := Pop();
    }
  }
}
