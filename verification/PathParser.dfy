/**
 pparser.c: parsing "drive:/part/part" into a linked list whose pieces live in heap blocks, and freeing it.
 */
module PathParser {
  import opened Bits
  import opened Memory
  import opened BlockTable
  import opened KernelHeap
  import opened PageMap
  import opened Kernel
  import opened CStrings

  const MAX_PATH: nat := 108

  datatype Option<T> = None | Some(value: T)

  datatype Path = Path(drive: nat, parts: seq<seq<char>>)

  // ----- What a path means -----

  /** pathparser_path_valid_format. */
  predicate ValidFormat(s: seq<char>) {
    |s| >= 3 && IsDigit(s[0]) && s[1] == ':' && s[2] == '/'
  }

  /** The components of s between slashes. */
  function Components(s: seq<char>): (cs: seq<seq<char>>)
    ensures |cs| >= 1
    decreases |s|
  {
    var n := RunLen(s, "/");
    if n == |s| then [s] else [s[..n]] + Components(s[n + 1..])
  }

  /** The components up to the first empty one. */
  function UpToEmpty(cs: seq<seq<char>>): (r: seq<seq<char>>)
    ensures r <= cs && (forall c :: c in r ==> c != []) && (|r| < |cs| ==> cs[|r|] == [])
  {
    if cs == [] || cs[0] == [] then [] else [cs[0]] + UpToEmpty(cs[1..])
  }

  function Parts(s: seq<char>): seq<seq<char>> { UpToEmpty(Components(s)) }

  /** What pathparser_parse accepts, and what it makes of it. */
  function ParsePath(s: seq<char>): Option<Path> {
    if |s| > MAX_PATH || !ValidFormat(s) then None
    else Some(Path((s[0] - '0') as int, Parts(s[3..])))
  }

  function Print(p: Path): seq<char>
    requires p.drive <= 9
  {
    [DigitChar(p.drive)] + ":/" + Join(p.parts, '/')
  }

  /** s is at most 108 characters: the digit d, a colon, a slash, and rest. */
  predicate Says(s: seq<char>, d: nat, rest: seq<char>) {
    |s| <= 108 && d <= 9 && s == [DigitChar(d)] + ":/" + rest
  }

  /** Accepted are exactly the texts of that form, and drive and parts are read off it. */
  lemma AcceptedIff(s: seq<char>)
    ensures ParsePath(s).Some? <==> exists d, rest :: Says(s, d, rest)
    ensures forall d, rest :: Says(s, d, rest) ==> ParsePath(s) == Some(Path(d, Parts(rest)))
  {
    hide Parts;
    if ParsePath(s).Some? {
      assert s == [DigitChar((s[0] - '0') as int)] + ":/" + s[3..];
      assert Says(s, (s[0] - '0') as int, s[3..]);
    }
    forall d, rest | Says(s, d, rest) ensures ParsePath(s) == Some(Path(d, Parts(rest))) {
      assert s[3..] == rest;
    }
  }

  /** Parsing a printed path gives it back. */
  lemma PathRoundTrip(p: Path)
    requires p.drive <= 9 && |Print(p)| <= MAX_PATH
    requires forall w :: w in p.parts ==> w != [] && '/' !in w
    ensures ParsePath(Print(p)) == Some(p)
  {
    var s := Print(p);
    assert s[3..] == Join(p.parts, '/');
    PartsOfJoin(p.parts);
  }

  /** One component at a time: how the loop of pathparser_parse meets the parts. */
  lemma PartsStep(s: seq<char>)
    ensures var n := RunLen(s, "/");
            && (n == 0 ==> Parts(s) == [])
            && (n > 0 ==> Parts(s) == [s[..n]] + Parts(if n < |s| then s[n + 1..] else []))
  {
    var n := RunLen(s, "/");
    if n == |s| {
      assert s[..n] == s;
      assert Parts([]) == [];
    } else {
      assert Components(s)[1..] == Components(s[n + 1..]);
    }
  }

  lemma {:induction false} PartsOfJoin(ws: seq<seq<char>>)
    requires forall w :: w in ws ==> w != [] && '/' !in w
    ensures Parts(Join(ws, '/')) == ws
  {
    if ws != [] {
      var s, w, rest := Join(ws, '/'), ws[0], ws[1..];
      assert w in ws;
      assert s == w + if rest == [] then [] else ['/'] + Join(rest, '/');
      forall v | v in rest ensures v != [] && '/' !in v { assert v in ws; }
      PartsOfJoin(rest);
      RunLenIs(s, "/", |w|);
      PartsStep(s);
      hide Parts;
      hide Join;
      assert s[..|w|] == w;
      assert |w| < |s| ==> s[|w| + 1..] == Join(rest, '/');
      assert rest == [] ==> Join(rest, '/') == [] by { JoinNone('/'); }
      assert ws == [w] + rest;
    }
  }

  lemma JoinNone(sep: char)
    ensures Join([], sep) == []
  {
  }

  /** Every part of an accepted path fits a 108-byte buffer with its terminator. */
  lemma PartsFit(s: seq<char>)
    requires ParsePath(s).Some?
    ensures forall w :: w in ParsePath(s).value.parts ==> w != [] && |w| < MAX_PATH && '/' !in w
  {
    ComponentsShort(s[3..]);
  }

  lemma {:induction false} ComponentsShort(s: seq<char>)
    ensures forall w :: w in Components(s) ==> |w| <= |s| && '/' !in w
    decreases |s|
  {
    var n := RunLen(s, "/");
    if n < |s| {
      ComponentsShort(s[n + 1..]);
    }
  }

  // ----- The parser -----

  class PathPart {
    const part: array<char>
    /** Where the heap keeps the string and the node. */
    const partAddr: PageAddr
    const addr: PageAddr
    var next: PathPart?

    constructor (part: array<char>, partAddr: PageAddr, addr: PageAddr)
      ensures this.part == part && this.partAddr == partAddr && this.addr == addr && next == null
    {
      this.part, this.partAddr, this.addr := part, partAddr, addr;
      next := null;
    }
  }

  class PathRoot {
    const drive: nat
    const addr: PageAddr
    var first: PathPart?

    constructor (drive: nat, addr: PageAddr)
      ensures this.drive == drive && this.addr == addr && first == null
    {
      this.drive, this.addr, first := drive, addr, null;
    }
  }

  ghost predicate PartHolds(node: PathPart, w: seq<char>)
    reads node.part
  {
    node.part.Length == MAX_PATH && Terminated(node.part[..], 0) && CStr(node.part[..], 0) == w
  }

  /** first leads through the nodes in order, and then to null. */
  ghost predicate IsPath(first: PathPart?, nodes: seq<PathPart>)
    reads nodes
  {
    && first == (if nodes == [] then null else nodes[0])
    && (forall i, j :: 0 <= i < j < |nodes| ==> nodes[i] != nodes[j])
    && forall i :: 0 <= i < |nodes| ==> Linked(nodes, i)
  }

  ghost predicate Linked(nodes: seq<PathPart>, i: nat)
    requires i < |nodes|
    reads nodes[i]
  {
    nodes[i].next == if i + 1 < |nodes| then nodes[i + 1] else null
  }

  /** The blocks of the nodes: string, node, string, node, ... */
  ghost function Addrs(nodes: seq<PathPart>): seq<PageAddr> {
    if nodes == [] then [] else [nodes[0].partAddr, nodes[0].addr] + Addrs(nodes[1..])
  }

  lemma {:induction false} AddrsAppend(nodes: seq<PathPart>, node: PathPart)
    ensures Addrs(nodes + [node]) == Addrs(nodes) + [node.partAddr, node.addr]
  {
    if nodes == [] {
      assert [node][1..] == [];
    } else {
      AddrsAppend(nodes[1..], node);
      assert (nodes + [node])[1..] == nodes[1..] + [node];
    }
  }

  /** pathparser_get_path_part: copy one component into a fresh 108-byte buffer; an empty one frees the buffer again. */
  method GetPathPart(k: Machine, path: array<char>, pos: nat)
    returns (part: array?<char>, addr: PageAddr, next: nat)
    requires k.Valid() && FreeBlocks(k.Table()) != {} && Terminated(path[..], pos)
    requires RunLen(CStr(path[..], pos), "/") < MAX_PATH && path as object != k.heap.entries
    modifies k`mem, k.heap.entries
    ensures k.Valid() && Terminated(path[..], next) && path[..] == old(path[..])
    ensures var s := CStr(path[..], pos);
            var n := RunLen(s, "/");
            && CStr(path[..], next) == (if n < |s| then s[n + 1..] else [])
            && (n == 0 ==> part == null && k.Table() == old(k.Table()))
            && (n > 0 ==>
                  && part != null && fresh(part) && part.Length == MAX_PATH
                  && Terminated(part[..], 0) && CStr(part[..], 0) == s[..n]
                  && IsBlock(addr) && old(k.Table())[BlockOf(addr)] == FREE
                  && k.Table() == old(k.Table())[BlockOf(addr) := SINGLE]
                  && FreeBlocks(k.Table()) == FreeBlocks(old(k.Table())) - {BlockOf(addr)})
  {
    hide RunLen; hide End; hide CStr; hide Terminated;
    ghost var table := k.Table();
    addr := k.KzallocPage(MAX_PATH);
    var buf, i;
    buf, i, next := CopyComponent(path, pos);
    part := buf;
    if i == 0 {
      FreedSingle(k.Table(), BlockOf(addr));
      k.Kfree(addr);
      part := null;
      assert k.Table() == table;
    }
  }

  /** What pathparser_get_path_part does with the text: copy the component at pos, and step over its slash. */
  method CopyComponent(path: array<char>, pos: nat) returns (buf: array<char>, i: nat, next: nat)
    requires Terminated(path[..], pos) && RunLen(CStr(path[..], pos), "/") < MAX_PATH
    ensures fresh(buf) && buf.Length == MAX_PATH && i == RunLen(CStr(path[..], pos), "/")
    ensures Terminated(buf[..], 0) && CStr(buf[..], 0) == CStr(path[..], pos)[..i]
    ensures Terminated(path[..], next)
    ensures CStr(path[..], next) == if i < |CStr(path[..], pos)| then CStr(path[..], pos)[i + 1..] else []
  {
    hide RunLen; hide End; hide CStr; hide Terminated;
    ghost var t := path[..];
    buf := new char[MAX_PATH](_ => NUL);
    i := CopyPart(path, pos, buf);
    next := pos + i;
    assert path[..] == t;
    Here(t, pos, i);
    Rest(t, pos, i);
    if path[next] == '/' {
      next := next + 1;
    }
    BufferHolds(buf[..], CStr(t, pos), i);
  }

  /** The copy loop of pathparser_get_path_part. */
  method CopyPart(path: array<char>, pos: nat, buf: array<char>) returns (i: nat)
    requires Terminated(path[..], pos) && RunLen(CStr(path[..], pos), "/") < MAX_PATH
    requires buf != path && buf.Length == MAX_PATH && forall j :: 0 <= j < MAX_PATH ==> buf[j] == NUL
    modifies buf
    ensures i == RunLen(CStr(path[..], pos), "/")
    ensures forall j :: 0 <= j < MAX_PATH ==> buf[j] == if j < i then CStr(path[..], pos)[j] else NUL
  {
    hide RunLen; hide End; hide CStr; hide Terminated;
    ghost var t := path[..];
    ghost var s := CStr(t, pos);
    ghost var n := RunLen(s, "/");
    i := 0;
    var next := pos;
    Here(t, pos, 0);
    while path[next] != '/' && path[next] != NUL
      invariant next == pos + i < path.Length && i <= n && path[..] == t
      invariant path[next] == if i < |s| then s[i] else NUL
      invariant forall j :: 0 <= j < MAX_PATH ==> buf[j] == if j < i then s[j] else NUL
      decreases n - i
    {
      buf[i] := path[next];
      next := next + 1;
      i := i + 1;
      Here(t, pos, i);
    }
  }

  lemma Here(t: seq<char>, pos: nat, i: nat)
    requires Terminated(t, pos) && i <= |CStr(t, pos)|
    ensures pos + i < |t| && t[pos + i] == if i < |CStr(t, pos)| then CStr(t, pos)[i] else NUL
  {
  }

  /** What follows the component at pos. */
  lemma Rest(t: seq<char>, pos: nat, n: nat)
    requires Terminated(t, pos) && n <= |CStr(t, pos)|
    ensures var s := CStr(t, pos);
            var next := if n < |s| then pos + n + 1 else pos + n;
            Terminated(t, next) && CStr(t, next) == if n < |s| then s[n + 1..] else []
  {
    var s := CStr(t, pos);
    EndIs(t, if n < |s| then pos + n + 1 else pos + n, End(t, pos));
  }

  lemma BufferHolds(buf: seq<char>, s: seq<char>, n: nat)
    requires |buf| == MAX_PATH && n <= |s| && n < MAX_PATH && NUL !in s
    requires forall j :: 0 <= j < MAX_PATH ==> buf[j] == if j < n then s[j] else NUL
    ensures Terminated(buf, 0) && CStr(buf, 0) == s[..n]
  {
    forall j | 0 <= j < n ensures buf[j] != NUL { assert s[j] in s; }
    EndIs(buf, 0, n);
    assert buf[0..n] == s[..n];
  }

  // ----- The list -----

  /** The nodes hold the given parts, and their strings and nodes are the blocks that were taken beside the root. */
  ghost predicate Built(t: seq<Entry>, t': seq<Entry>, root: PageAddr, nodes: seq<PathPart>) {
    BlocksTaken(t, t', root, Addrs(nodes))
  }

  lemma TakenMore(t: seq<Entry>, t1: seq<Entry>, root: PageAddr, nodes: seq<PathPart>, node: PathPart)
    requires Built(t, t1, root, nodes) && IsBlock(node.partAddr) && IsBlock(node.addr)
    requires t1[BlockOf(node.partAddr)] == FREE && t1[BlockOf(node.partAddr) := SINGLE][BlockOf(node.addr)] == FREE
    ensures Built(t, t1[BlockOf(node.partAddr) := SINGLE][BlockOf(node.addr) := SINGLE], root, nodes + [node])
  {
    AddrsAppend(nodes, node);
    var t2 := t1[BlockOf(node.partAddr) := SINGLE];
    BlocksExtend(t, t1, root, Addrs(nodes), node.partAddr);
    BlocksExtend(t, t2, root, Addrs(nodes) + [node.partAddr], node.addr);
    assert Addrs(nodes) + [node.partAddr] + [node.addr] == Addrs(nodes + [node]);
  }

  lemma TakenOne(t: seq<Entry>, root: PageAddr)
    requires |t| == HEAP_BLOCKS && IsBlock(root) && t[BlockOf(root)] == FREE
    ensures Built(t, t[BlockOf(root) := SINGLE], root, [])
  {
    assert BlockAddr(BlockOf(root)) == root;
  }

  /** A fresh, unlinked node for one component, with its two blocks; nothing for an empty component. */
  ghost predicate PartTaken(s: seq<char>, before: seq<Entry>, after: seq<Entry>, t: seq<Entry>, root: PageAddr,
                            nodes: seq<PathPart>, part: PathPart?)
    reads if part == null then {} else {part.part}
  {
    var n := RunLen(s, "/");
    if n == 0 then part == null && after == before
    else
      && part != null && PartHolds(part, s[..n])
      && Built(t, after, root, nodes + [part]) && |FreeBlocks(after)| == |FreeBlocks(before)| - 2
  }

  /** The allocating half of pathparser_parse_path_part. */
  method TakePart(k: Machine, path: array<char>, pos: nat, ghost t: seq<Entry>, ghost root: PageAddr,
                  ghost nodes: seq<PathPart>)
    returns (part: PathPart?, next: nat)
    requires k.Valid() && FreeBlocks(k.Table()) != {} && Terminated(path[..], pos) && path as object != k.heap.entries
    requires RunLen(CStr(path[..], pos), "/") > 0 ==> |FreeBlocks(k.Table())| >= 2
    requires RunLen(CStr(path[..], pos), "/") < MAX_PATH && Built(t, k.Table(), root, nodes)
    modifies k`mem, k.heap.entries
    ensures k.Valid() && Terminated(path[..], next) && path[..] == old(path[..])
    ensures var s := CStr(path[..], pos);
            var n := RunLen(s, "/");
            CStr(path[..], next) == (if n < |s| then s[n + 1..] else [])
    ensures part != null ==> fresh(part) && fresh(part.part) && part.next == null
    ensures PartTaken(CStr(path[..], pos), old(k.Table()), k.Table(), t, root, nodes, part)
  {
    hide RunLen; hide End; hide CStr; hide Terminated; hide BlocksTaken; hide Built;
    var str, strAddr;
    str, strAddr, next := GetPathPart(k, path, pos);
    if str == null {
      return null, next;
    }
    assert BlockOf(strAddr) in FreeBlocks(old(k.Table()));
    ghost var t1 := k.Table();
    assert |FreeBlocks(t1)| == |FreeBlocks(old(k.Table()))| - 1;
    var addr := k.KzallocPage(8);
    assert BlockOf(addr) in FreeBlocks(t1);
    part := new PathPart(str, strAddr, addr);
    TakenMore(t, old(k.Table()), root, nodes, part);
  }

  /** last_part->next = part. */
  method Link(ghost nodes: seq<PathPart>, last: PathPart, part: PathPart)
    requires nodes != [] && last == nodes[|nodes| - 1] && IsPath(nodes[0], nodes) && part.next == null
    requires forall i :: 0 <= i < |nodes| ==> nodes[i] != part
    modifies last`next
    ensures IsPath(nodes[0], nodes + [part])
  {
    ghost var all := nodes + [part];
    assert forall i :: 0 <= i < |nodes| ==> Linked(nodes, i);
    last.next := part;
    forall i | 0 <= i < |all| ensures Linked(all, i) {
      if i < |nodes| - 1 { assert old(Linked(nodes, i)); }
    }
  }

  /** The loop of pathparser_parse has turned the first parts into nodes; those of rest are still to come. */
  ghost predicate Pending(all: seq<seq<char>>, done: nat, rest: seq<char>) {
    done <= |all| && all[done..] == Parts(rest) && |rest| < MAX_PATH
  }

  lemma PendingNext(all: seq<seq<char>>, done: nat, rest: seq<char>)
    requires Pending(all, done, rest)
    ensures var n := RunLen(rest, "/");
            && n < MAX_PATH
            && (n == 0 ==> done == |all|)
            && (n > 0 ==> done < |all| && all[done] == rest[..n]
                          && Pending(all, done + 1, if n < |rest| then rest[n + 1..] else []))
  {
    hide Parts;
    PartsStep(rest);
    if RunLen(rest, "/") > 0 {
      assert all[done] == all[done..][0] && all[done + 1..] == all[done..][1..];
    }
  }

  lemma PathOfOne(first: PathPart)
    requires first.next == null
    ensures IsPath(first, [first])
  {
  }

  /** The second part of the path and all that follow. */
  method ParseRest(k: Machine, path: array<char>, start: nat, first: PathPart, ghost t: seq<Entry>,
                   ghost root: PageAddr, ghost all: seq<seq<char>>)
    returns (ghost nodes: seq<PathPart>)
    requires k.Valid() && Terminated(path[..], start) && path as object != k.heap.entries
    requires first.next == null && |all| >= 1 && PartHolds(first, all[0]) && Built(t, k.Table(), root, [first])
    requires Pending(all, 1, CStr(path[..], start)) && |FreeBlocks(k.Table())| >= 2 * (|all| - 1) + 1
    requires first.part as object != k.heap.entries
    modifies k`mem, k.heap.entries, first`next
    ensures k.Valid() && path[..] == old(path[..])
    ensures |nodes| == |all| && IsPath(first, nodes) && Built(t, k.Table(), root, nodes)
    ensures forall i :: 0 <= i < |nodes| ==> PartHolds(nodes[i], all[i])
  {
    hide RunLen; hide End; hide CStr; hide Terminated; hide BlocksTaken; hide Parts; hide Pending; hide PartHolds;
    hide Built; hide FreeBlocks; hide IsPath;
    nodes := [first];
    PathOfOne(first);
    var last, pos := first, start;
    while true
      invariant k.Valid() && path[..] == old(path[..]) && Terminated(path[..], pos)
      invariant 1 <= |nodes| <= |all| && last == nodes[|nodes| - 1] && (last == first || fresh(last))
      invariant nodes[0] == first && IsPath(first, nodes) && Built(t, k.Table(), root, nodes)
      invariant forall i :: 0 <= i < |nodes| ==>
                PartHolds(nodes[i], all[i]) && nodes[i].part as object != k.heap.entries
      invariant Pending(all, |nodes|, CStr(path[..], pos))
      invariant |FreeBlocks(k.Table())| >= 2 * (|all| - |nodes|) + 1
      decreases |all| - |nodes|
    {
      PendingNext(all, |nodes|, CStr(path[..], pos));
      var part;
      part, pos := TakePart(k, path, pos, t, root, nodes);
      if part == null {
        break;
      }
      Link(nodes, last, part);
      nodes := nodes + [part];
      last := part;
    }
  }

  /** pathparser_parse, when enough blocks are free for an accepted path. */
  method Parse(k: Machine, path: array<char>) returns (root: PathRoot?, ghost nodes: seq<PathPart>)
    requires k.Valid() && Terminated(path[..], 0) && path as object != k.heap.entries
    requires ParsePath(CStr(path[..], 0)).Some? ==>
               |FreeBlocks(k.Table())| >= 2 * |ParsePath(CStr(path[..], 0)).value.parts| + 2
    modifies k`mem, k.heap.entries
    ensures k.Valid() && path[..] == old(path[..])
    ensures var r := ParsePath(CStr(path[..], 0));
            && (r.None? ==> root == null && nodes == [] && k.Table() == old(k.Table()))
            && (r.Some? ==>
                  && root != null && fresh(root) && root.drive == r.value.drive
                  && IsPath(root.first, nodes) && |nodes| == |r.value.parts|
                  && (forall i :: 0 <= i < |nodes| ==> PartHolds(nodes[i], r.value.parts[i]))
                  && Built(old(k.Table()), k.Table(), root.addr, nodes))
    ensures |FreeBlocks(old(k.Table()))| == |FreeBlocks(k.Table())| + if root == null then 0 else 2 * |nodes| + 1
    ensures root != null <==> exists d, rest :: Says(CStr(path[..], 0), d, rest)
    ensures forall d, rest :: Says(CStr(path[..], 0), d, rest) ==>
              && root.drive == d && |nodes| == |Parts(rest)|
              && forall i :: 0 <= i < |nodes| ==> PartHolds(nodes[i], Parts(rest)[i])
  {
    hide RunLen; hide End; hide CStr; hide Terminated; hide BlocksTaken; hide Parts; hide PartHolds; hide Built;
    hide Says;
    ghost var s := CStr(path[..], 0);
    AcceptedIff(s);
    ghost var t := k.Table();
    root, nodes := null, [];
    var len := StrLen(path);
    if len > MAX_PATH {
      return;
    }
    FirstChars(path[..]);
    if !(len >= 3 && IsDigit(path[0]) && path[1] == ':' && path[2] == '/') {
      return;
    }
    var addr := k.KzallocPage(8);
    assert BlockOf(addr) in FreeBlocks(t);
    root := new PathRoot((path[0] - '0') as int, addr);
    TakenOne(t, addr);
    SkipPrefix(path[..]);
    root.first, nodes := ParseParts(k, path, t, addr);
    ListCosts(t, k.Table(), addr, nodes);
  }

  /** The first part and all that follow. */
  method ParseParts(k: Machine, path: array<char>, ghost t: seq<Entry>, ghost root: PageAddr)
    returns (first: PathPart?, ghost nodes: seq<PathPart>)
    requires k.Valid() && Terminated(path[..], 3) && path as object != k.heap.entries && |CStr(path[..], 3)| < MAX_PATH
    requires Built(t, k.Table(), root, [])
    requires |FreeBlocks(k.Table())| >= 2 * |Parts(CStr(path[..], 3))| + 1
    modifies k`mem, k.heap.entries
    ensures k.Valid() && path[..] == old(path[..])
    ensures |nodes| == |Parts(CStr(path[..], 3))| && IsPath(first, nodes) && Built(t, k.Table(), root, nodes)
    ensures forall i :: 0 <= i < |nodes| ==> PartHolds(nodes[i], Parts(CStr(path[..], 3))[i])
  {
    hide RunLen; hide End; hide CStr; hide Terminated; hide BlocksTaken; hide Parts; hide PartHolds; hide Pending;
    hide Built; hide FreeBlocks; hide Resident;
    ghost var s := CStr(path[..], 3);
    ghost var all := Parts(s);
    PendingAll(s);
    PendingNext(all, 0, s);
    var pos;
    first, pos := TakePart(k, path, 3, t, root, []);
    if first == null {
      nodes := [];
      return;
    }
    assert [] + [first] == [first];
    nodes := ParseRest(k, path, pos, first, t, root, all);
  }

  lemma PendingAll(s: seq<char>)
    requires |s| < MAX_PATH
    ensures Pending(Parts(s), 0, s)
  {
    assert Parts(s)[0..] == Parts(s);
  }

  method StrLen(path: array<char>) returns (len: nat)
    requires Terminated(path[..], 0)
    ensures len == |CStr(path[..], 0)|
  {
    ghost var e := End(path[..], 0);
    len := 0;
    while path[len] != NUL
      invariant len <= e
      decreases e - len
    {
      assert path[..][e] == NUL;
      len := len + 1;
    }
    assert path[..][len] == NUL;
  }

  lemma FirstChars(t: seq<char>)
    requires Terminated(t, 0)
    ensures forall i :: 0 <= i < |CStr(t, 0)| ==> i < |t| && t[i] == CStr(t, 0)[i]
  {
  }

  lemma SkipPrefix(t: seq<char>)
    requires Terminated(t, 0) && |CStr(t, 0)| >= 3
    ensures Terminated(t, 3) && CStr(t, 3) == CStr(t, 0)[3..]
  {
    EndIs(t, 3, End(t, 0));
  }

  lemma {:induction false} TakenCount(t: seq<Entry>, t1: seq<Entry>, root: PageAddr, tabs: seq<PageAddr>)
    requires BlocksTaken(t, t1, root, tabs)
    ensures |FreeBlocks(t)| == |FreeBlocks(t1)| + |tabs| + 1
    decreases |tabs|
  {
    var b := BlockOf(if tabs == [] then root else tabs[0]);
    assert BlockAddr(b) == if tabs == [] then root else tabs[0];
    if tabs == [] {
      assert FreeBlocks(t) == FreeBlocks(t1) + {b} by { TakenNone(t, t1, root); FreedSingle(t1, b); }
    } else {
      TakenLess(t, t1, root, tabs);
      assert FreeBlocks(t1[b := FREE]) == FreeBlocks(t1) + {b};
      TakenCount(t, t1[b := FREE], root, tabs[1..]);
    }
  }

  /** A path list takes a block for its root and two for each part. */
  lemma ListCosts(t: seq<Entry>, t1: seq<Entry>, root: PageAddr, nodes: seq<PathPart>)
    requires Built(t, t1, root, nodes)
    ensures |FreeBlocks(t)| == |FreeBlocks(t1)| + 2 * |nodes| + 1
  {
    TakenCount(t, t1, root, Addrs(nodes));
    AddrsLength(nodes);
  }

  lemma {:induction false} AddrsLength(nodes: seq<PathPart>)
    ensures |Addrs(nodes)| == 2 * |nodes|
  {
    if nodes != [] { AddrsLength(nodes[1..]); }
  }

  // ----- Freeing -----

  /** The first of the taken blocks is given back. */
  lemma TakenLess(t: seq<Entry>, t1: seq<Entry>, root: PageAddr, tabs: seq<PageAddr>)
    requires BlocksTaken(t, t1, root, tabs) && tabs != []
    ensures Freed(t1, BlockOf(tabs[0])) == t1[BlockOf(tabs[0]) := FREE]
    ensures BlocksTaken(t, t1[BlockOf(tabs[0]) := FREE], root, tabs[1..])
  {
    var b := BlockOf(tabs[0]);
    assert BlockAddr(b) == tabs[0];
    assert t1[b] == SINGLE by { assert tabs[0] in tabs; }
    FreedSingle(t1, b);
    forall c | 0 <= c < HEAP_BLOCKS
      ensures BlockAddr(c) in tabs <==> c == b || BlockAddr(c) in tabs[1..]
    {
      assert BlockOf(BlockAddr(c)) == c;
    }
  }

  lemma TakenNone(t: seq<Entry>, t1: seq<Entry>, root: PageAddr)
    requires BlocksTaken(t, t1, root, [])
    ensures Freed(t1, BlockOf(root)) == t
  {
    var b := BlockOf(root);
    assert BlockAddr(b) == root && t1[b] == SINGLE;
    FreedSingle(t1, b);
    forall c | 0 <= c < HEAP_BLOCKS ensures t1[b := FREE][c] == t[c] {
      assert BlockOf(BlockAddr(c)) == c;
    }
  }

  /** pathparser_free: afterwards the heap table is the one before the parse, t. */
  method Free(k: Machine, root: PathRoot, ghost nodes: seq<PathPart>, ghost t: seq<Entry>)
    requires k.Valid() && IsPath(root.first, nodes) && Built(t, k.Table(), root.addr, nodes)
    modifies k.heap.entries
    ensures k.Table() == t
  {
    hide BlocksTaken;
    var part := root.first;
    ghost var i := 0;
    assert nodes[0..] == nodes;
    while part != null
      invariant IsPath(root.first, nodes)
      invariant i <= |nodes| && part == if i < |nodes| then nodes[i] else null
      invariant BlocksTaken(t, k.Table(), root.addr, Addrs(nodes[i..]))
      decreases |nodes| - i
    {
      ghost var tabs := Addrs(nodes[i..]);
      assert nodes[i..][1..] == nodes[i + 1..];
      assert tabs[0] == part.partAddr && tabs[1..][0] == part.addr && tabs[1..][1..] == Addrs(nodes[i + 1..]);
      var nextPart := part.next;
      assert Linked(nodes, i);
      TakenLess(t, k.Table(), root.addr, tabs);
      InHeap(t, k.Table(), root.addr, tabs);
      k.Kfree(part.partAddr);
      TakenLess(t, k.Table(), root.addr, tabs[1..]);
      k.Kfree(part.addr);
      part := nextPart;
      i := i + 1;
    }
    TakenNone(t, k.Table(), root.addr);
    InHeap(t, k.Table(), root.addr, []);
    k.Kfree(root.addr);
  }

  lemma InHeap(t: seq<Entry>, t1: seq<Entry>, root: PageAddr, tabs: seq<PageAddr>)
    requires BlocksTaken(t, t1, root, tabs)
    ensures IsBlock(root) && forall i :: 0 <= i < |tabs| ==> IsBlock(tabs[i])
  {
  }

  /** Parse, then free: the heap table is restored, whatever the path. */
  method ParseThenFree(k: Machine, path: array<char>) returns (accepted: bool)
    requires k.Valid() && Terminated(path[..], 0) && path as object != k.heap.entries
    requires ParsePath(CStr(path[..], 0)).Some? ==>
               |FreeBlocks(k.Table())| >= 2 * |ParsePath(CStr(path[..], 0)).value.parts| + 2
    modifies k`mem, k.heap.entries
    ensures k.Valid() && k.Table() == old(k.Table()) && (accepted <==> ParsePath(CStr(path[..], 0)).Some?)
  {
    ghost var t := k.Table();
    var root, nodes := Parse(k, path);
    accepted := root != null;
    if root != null {
      Free(k, root, nodes, t);
    }
  }
}
