/**
 streamer.c: reading bytes from a disk that delivers whole 512-byte sectors.
 */
module Streamer {
  import opened Memory
  import opened Status

  const SECTOR: nat := 512

  /** The sectors from the one that holds byte pos to the one that holds byte pos + total, inclusive. */
  function Touched(pos: nat, total: nat): (s: seq<nat>)
  {
    seq((pos + total) / SECTOR - pos / SECTOR + 1, i requires 0 <= i => pos / SECTOR + i)
  }

  /** Every sector that a read of total bytes at pos asks for is on the disk. */
  predicate OnDisk(disk: seq<Byte>, pos: nat, total: nat) {
    ((pos + total) / SECTOR + 1) * SECTOR <= |disk|
  }

  lemma TouchedFirst(pos: nat, total: nat)
    ensures total + pos % SECTOR < SECTOR ==> Touched(pos, total) == [pos / SECTOR]
    ensures var n := SECTOR - pos % SECTOR;
            total + pos % SECTOR >= SECTOR ==>
              n <= total && Touched(pos, total) == [pos / SECTOR] + Touched(pos + n, total - n)
  {
  }

  /** after is before with the total bytes of the disk at pos written from index at on. */
  ghost predicate Delivered(before: seq<Byte>, after: seq<Byte>, disk: seq<Byte>, pos: nat, at: nat, total: nat) {
    && pos + total <= |disk| && at + total <= |before| == |after|
    && forall j :: 0 <= j < |after| ==> after[j] == if at <= j < at + total then disk[pos + (j - at)] else before[j]
  }

  /** The plain slice of the disk between the parts of before that are kept. */
  function Placed(before: seq<Byte>, disk: seq<Byte>, pos: nat, at: nat, total: nat): seq<Byte>
    requires pos + total <= |disk| && at + total <= |before|
  {
    before[..at] + disk[pos..pos + total] + before[at + total..]
  }

  lemma DeliveredSlice(before: seq<Byte>, after: seq<Byte>, disk: seq<Byte>, pos: nat, at: nat, total: nat)
    requires Delivered(before, after, disk, pos, at, total)
    ensures after == Placed(before, disk, pos, at, total)
  {
  }

  /** What comes from the buffer of one sector comes from the disk. */
  lemma DeliveredSector(before: seq<Byte>, after: seq<Byte>, disk: seq<Byte>, pos: nat, at: nat, total: nat)
    requires (pos / SECTOR + 1) * SECTOR <= |disk|
    requires Delivered(before, after, disk[pos / SECTOR * SECTOR..(pos / SECTOR + 1) * SECTOR], pos % SECTOR, at, total)
    ensures Delivered(before, after, disk, pos, at, total)
  {
  }

  lemma DeliveredJoin(a: seq<Byte>, b: seq<Byte>, c: seq<Byte>, disk: seq<Byte>, pos: nat, at: nat, m: nat, n: nat)
    requires Delivered(a, b, disk, pos, at, m) && Delivered(b, c, disk, pos + m, at + m, n)
    ensures Delivered(a, c, disk, pos, at, m + n)
  {
  }

  class DiskStream {
    const disk: seq<Byte>
    /** Whether the stream's disk is the one disk the driver knows. */
    const known: bool
    var pos: nat
    /** The sectors read so far, in order. */
    ghost var sectors: seq<nat>

    constructor (disk: seq<Byte>, known: bool)
      ensures this.disk == disk && this.known == known && pos == 0 && sectors == []
    {
      this.disk, this.known, pos := disk, known, 0;
      sectors := [];
    }

    /** diskstreamer_seek. */
    method Seek(pos: nat) returns (res: int)
      modifies this`pos
      ensures this.pos == pos && res == 0
    {
      this.pos := pos;
      res := 0;
    }

    /** disk_read_block of one sector. */
    method ReadBlock(sector: nat) returns (res: int, buf: seq<Byte>)
      requires (sector + 1) * SECTOR <= |disk|
      modifies this`sectors
      ensures !known ==> res == -EIO && sectors == old(sectors)
      ensures known ==> res == 0 && sectors == old(sectors) + [sector]
                        && buf == disk[sector * SECTOR..(sector + 1) * SECTOR]
    {
      if !known {
        return -EIO, [];
      }
      sectors := sectors + [sector];
      return 0, disk[sector * SECTOR..(sector + 1) * SECTOR];
    }

    /** The copy loop of diskstreamer_read: n bytes of one sector. */
    method CopyOut(buf: seq<Byte>, offset: nat, n: nat, out: array<Byte>, at: nat)
      requires offset + n <= |buf| && at + n <= out.Length
      modifies out
      ensures Delivered(old(out[..]), out[..], buf, offset, at, n)
    {
      for i := 0 to n
        invariant forall j :: 0 <= j < out.Length ==>
          out[j] == if at <= j < at + i then buf[offset + (j - at)] else old(out[j])
      {
        out[at + i] := buf[offset + i];
      }
    }

    /** diskstreamer_read into out, from index at on: one sector, then the rest by recursion. */
    method Read(out: array<Byte>, at: nat, total: nat) returns (res: int)
      requires OnDisk(disk, pos, total) && at + total <= out.Length
      modifies this`pos, this`sectors, out
      ensures !known ==> res == -EIO && pos == old(pos) && sectors == old(sectors) && out[..] == old(out[..])
      ensures known ==>
                && res == 0 && pos == old(pos) + total
                && sectors == old(sectors) + Touched(old(pos), total)
                && Delivered(old(out[..]), out[..], disk, old(pos), at, total)
                && out[..] == Placed(old(out[..]), disk, old(pos), at, total)
      decreases total
    {
      hide Placed; hide Touched; hide Delivered;
      var sector, offset := pos / SECTOR, pos % SECTOR;
      var toRead := total;
      var overflow := offset + toRead >= SECTOR;
      TouchedFirst(pos, total);
      if overflow {
        toRead := toRead - (offset + toRead - SECTOR);
      }
      ghost var start, before, seen := pos, out[..], sectors;
      var buf;
      res, buf := ReadBlock(sector);
      if res < 0 {
        return;
      }
      CopyOut(buf, offset, toRead, out, at);
      ghost var mid := out[..];
      DeliveredSector(before, mid, disk, start, at, toRead);
      pos := pos + toRead;
      if overflow {
        res := Read(out, at + toRead, total - toRead);
        DeliveredJoin(before, mid, out[..], disk, start, at, toRead, total - toRead);
      }
      if known { DeliveredSlice(before, out[..], disk, start, at, total); }
    }

    /** Reading a bytes and then b bytes is reading a + b bytes: same bytes, same position, same sectors. */
    method ReadInTwo(out: array<Byte>, at: nat, a: nat, b: nat) returns (res: int)
      requires known && OnDisk(disk, pos, a + b) && at + a + b <= out.Length
      modifies this`pos, this`sectors, out
      ensures res == 0 && pos == old(pos) + a + b
      ensures Delivered(old(out[..]), out[..], disk, old(pos), at, a + b)
      ensures out[..] == Placed(old(out[..]), disk, old(pos), at, a + b)
      ensures Elements(sectors) == Elements(old(sectors)) + Elements(Touched(old(pos), a + b))
    {
      hide Placed; hide Touched;
      ghost var start, before, seen := pos, out[..], sectors;
      SplitOnDisk(disk, pos, a, b);
      res := Read(out, at, a);
      ghost var mid := out[..];
      res := Read(out, at + a, b);
      DeliveredJoin(before, mid, out[..], disk, start, at, a, b);
      DeliveredSlice(before, out[..], disk, start, at, a + b);
      SectorSets(seen, start, a, b);
    }
  }

  function Elements(s: seq<nat>): set<nat> {
    set x | x in s
  }

  lemma SectorSets(seen: seq<nat>, pos: nat, a: nat, b: nat)
    ensures Elements(seen + Touched(pos, a) + Touched(pos + a, b)) == Elements(seen) + Elements(Touched(pos, a + b))
  {
    TouchedSplit(pos, a, b);
    var s, t, u := Touched(pos, a), Touched(pos + a, b), Touched(pos, a + b);
    forall x: nat ensures x in Elements(seen + s + t) <==> x in Elements(seen) + Elements(u) {
      assert x in seen + s + t <==> x in seen || x in s || x in t;
      assert x in u <==> x in s || x in t;
    }
  }

  lemma SplitOnDisk(disk: seq<Byte>, pos: nat, a: nat, b: nat)
    requires OnDisk(disk, pos, a + b)
    ensures OnDisk(disk, pos, a) && OnDisk(disk, pos + a, b)
  {
  }

  /** The sectors of two adjacent reads are those of the joint read. */
  lemma TouchedSplit(pos: nat, a: nat, b: nat)
    ensures forall s :: s in Touched(pos, a + b) <==> s in Touched(pos, a) || s in Touched(pos + a, b)
  {
    forall s: nat ensures s in Touched(pos, a + b) <==> s in Touched(pos, a) || s in Touched(pos + a, b) {
      TouchedIs(pos, a + b, s);
      TouchedIs(pos, a, s);
      TouchedIs(pos + a, b, s);
    }
  }

  /** The sectors are those of the bytes from pos to pos + total, the last of which is not delivered. */
  lemma TouchedIs(pos: nat, total: nat, s: nat)
    ensures s in Touched(pos, total) <==> pos / 512 <= s <= (pos + total) / 512
  {
    if pos / SECTOR <= s <= (pos + total) / SECTOR {
      assert Touched(pos, total)[s - pos / SECTOR] == s;
    }
  }
}
