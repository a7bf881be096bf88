/**
 fat16.c: where the data region starts, and reading from the first cluster of a file.
 */
module Fat16 {
  import opened Bits
  import opened Memory
  import opened Streamer
  import opened Status

  const FAT_ENTRY_SIZE: nat := 2
  const DIRECTORY_ITEM_SIZE: nat := 32

  /** The fields of the FAT header that the reads use. */
  datatype Header = Header(sectorsPerCluster: nat, reservedSectors: nat, fatCopies: nat, rootDirEntries: nat,
                           sectorsPerFat: nat)

  /** root_directory.sector_pos. */
  function RootDirSector(h: Header): nat { h.fatCopies * h.sectorsPerFat + h.reservedSectors }

  /** root_directory.ending_sector_pos. */
  function EndingSector(h: Header): nat {
    var size := h.rootDirEntries * DIRECTORY_ITEM_SIZE;
    RootDirSector(h) + if size % SECTOR != 0 then size / SECTOR + 1 else size / SECTOR
  }

  /** FirstDataSector of the FAT specification, version 1.03, section "FAT Data Structure", at 512 bytes per sector. */
  function FirstDataSector(h: Header): nat {
    h.reservedSectors + h.fatCopies * h.sectorsPerFat + (h.rootDirEntries * 32 + 511) / 512
  }

  /** The byte at which cluster n starts: FirstSectorofCluster of the same section, in bytes. Below cluster 2 it lies
      before the data region, and may be negative. */
  function ClusterStart(h: Header, n: nat): int {
    (FirstDataSector(h) + (n - 2) * h.sectorsPerCluster) * 512
  }

  /** Cluster 2 is the first of the data region, and clusters adjoin. */
  lemma ClustersAdjoin(h: Header, n: nat)
    ensures ClusterStart(h, 2) == FirstDataSector(h) * 512
    ensures ClusterStart(h, n + 1) == ClusterStart(h, n) + h.sectorsPerCluster * 512
  {
    assert (n + 1 - 2) * h.sectorsPerCluster == (n - 2) * h.sectorsPerCluster + h.sectorsPerCluster;
  }

  lemma DataStartsWhereSpecified(h: Header)
    ensures EndingSector(h) == FirstDataSector(h)
  {
  }

  /** fat16_get_first_cluster: the halves are or-ed without a shift. */
  function FirstCluster(high: nat, low: nat): nat { BitOr(high, low) }

  /** On FAT16, where the high half is 0, the cluster is the low half. */
  lemma FirstClusterIsLow(low: nat)
    ensures FirstCluster(0, low) == low
  {
    OrZeroLeft(low);
  }

  lemma {:induction false} OrZeroLeft(b: nat)
    ensures BitOr(0, b) == b
  {
    if b > 0 { OrZeroLeft(b / 2); }
  }

  class Volume {
    const header: Header
    const clusterStream: DiskStream
    const fatStream: DiskStream

    constructor (header: Header, clusterStream: DiskStream, fatStream: DiskStream)
      requires header.sectorsPerCluster >= 1 && clusterStream != fatStream
      requires clusterStream.known && fatStream.known && clusterStream.disk == fatStream.disk
      ensures this.header == header && this.clusterStream == clusterStream && this.fatStream == fatStream && Valid()
    {
      this.header, this.clusterStream, this.fatStream := header, clusterStream, fatStream;
    }

    /** Two streams on the one disk the driver knows. */
    ghost predicate Valid() {
      && header.sectorsPerCluster >= 1 && clusterStream != fatStream
      && clusterStream.known && fatStream.known && clusterStream.disk == fatStream.disk
    }

    function ClusterBytes(): nat { header.sectorsPerCluster * SECTOR }

    /** fat16_cluster_to_sector. */
    function ClusterToSector(cluster: nat): int {
      EndingSector(header) + (cluster - 2) * header.sectorsPerCluster
    }

    /** The computed sector is where the specification puts the cluster, and a cluster reaches to the next one. */
    lemma ClusterBounds(cluster: nat)
      ensures ClusterToSector(cluster) * SECTOR == ClusterStart(header, cluster)
      ensures ClusterStart(header, cluster + 1) == ClusterStart(header, cluster) + ClusterBytes()
    {
      DataStartsWhereSpecified(header);
      ClustersAdjoin(header, cluster);
    }

    /** Where fat16_get_fat_entry reads: the position of the table is multiplied where the offset was meant to be
        added. */
    function FatEntryPos(cluster: nat): nat {
      header.reservedSectors * SECTOR * (cluster * FAT_ENTRY_SIZE)
    }

    /** The sectors that a read of total bytes at pos asks for are on the disk. */
    predicate DataOnDisk(pos: int, total: nat) {
      pos >= 0 && OnDisk(clusterStream.disk, pos, total)
    }

    predicate FatOnDisk(cluster: nat) {
      OnDisk(fatStream.disk, FatEntryPos(cluster), FAT_ENTRY_SIZE)
    }

    /** fat16_get_fat_entry: the answer is the status of the read, never the entry. */
    method GetFatEntry(cluster: nat) returns (res: int)
      requires Valid() && FatOnDisk(cluster)
      modifies fatStream
      ensures res == 0 && fatStream.pos == header.reservedSectors * 512 * (cluster * 2) + 2
      ensures fatStream.sectors == old(fatStream.sectors) + Touched(fatStream.pos - 2, 2)
    {
      hide Touched;
      var buf := new Byte[FAT_ENTRY_SIZE](_ => 0);
      res := fatStream.Seek(FatEntryPos(cluster));
      res := fatStream.Read(buf, 0, FAT_ENTRY_SIZE);
    }

    /** fat16_get_cluster_for_offset: any step past the first cluster ends in -EIO, and only then is the table read. */
    method GetClusterForOffset(startingCluster: nat, offset: nat) returns (res: int)
      requires Valid() && (offset >= ClusterBytes() ==> FatOnDisk(startingCluster))
      modifies fatStream
      ensures res == if offset < ClusterBytes() then startingCluster else -EIO
      ensures offset < ClusterBytes() ==>
                fatStream.pos == old(fatStream.pos) && fatStream.sectors == old(fatStream.sectors)
    {
      var clusterToUse: int := startingCluster;
      var clustersAhead := offset / ClusterBytes();
      Ahead(offset, ClusterBytes());
      for i := 0 to clustersAhead
        invariant i == 0 && clusterToUse == startingCluster
        invariant fatStream.pos == old(fatStream.pos) && fatStream.sectors == old(fatStream.sectors)
      {
        var entry := GetFatEntry(clusterToUse);
        if entry == 0xFF8 || entry == 0xFFF {
          return -EIO;
        }
        if entry == 0xFF7 {
          return -EIO;
        }
        if entry == 0xFF0 || entry == 0xFF6 {
          return -EIO;
        }
        if entry == 0x00 {
          return -EIO;
        }
        clusterToUse := entry;
      }
      res := clusterToUse;
    }

    function AtMostCluster(total: nat): nat {
      if total <= ClusterBytes() then total else ClusterBytes()
    }

    /** fat16_read_internal_from_stream: a read of at most one cluster is one contiguous piece of the disk, which may
        run past the end of the cluster; a longer read delivers one cluster's worth and then fails. */
    method ReadInternal(cluster: nat, offset: nat, total: nat, out: array<Byte>, at: nat) returns (res: int)
      requires Valid() && at + total <= out.Length
      requires offset < ClusterBytes() ==> DataOnDisk(ClusterStart(header, cluster) + offset, AtMostCluster(total))
      requires offset >= ClusterBytes() || total > ClusterBytes() ==> FatOnDisk(cluster)
      modifies clusterStream, fatStream, out
      ensures res == if offset < ClusterBytes() && total <= ClusterBytes() then 0 else -EIO
      ensures offset < ClusterBytes() ==>
                var pos, n := ClusterStart(header, cluster) + offset, AtMostCluster(total);
                && Delivered(old(out[..]), out[..], clusterStream.disk, pos, at, n)
                && clusterStream.sectors == old(clusterStream.sectors) + Touched(pos, n)
      ensures offset >= ClusterBytes() ==>
                out[..] == old(out[..]) && clusterStream.sectors == old(clusterStream.sectors)
      ensures offset < ClusterBytes() && total <= ClusterBytes() ==> fatStream.sectors == old(fatStream.sectors)
      decreases total
    {
      hide Touched; hide EndingSector; hide ClusterStart; hide Delivered;
      ClusterBounds(cluster);
      var clusterBytes := ClusterBytes();
      Ahead(offset, clusterBytes);
      var clusterToUse := GetClusterForOffset(cluster, offset);
      if clusterToUse < 0 {
        return clusterToUse;
      }
      var offsetFromCluster := offset % clusterBytes;
      var startingPos := ClusterToSector(clusterToUse) * SECTOR + offsetFromCluster;
      assert startingPos == ClusterStart(header, cluster) + offset;
      var toRead := if total > clusterBytes then clusterBytes else total;
      res := clusterStream.Seek(startingPos);
      res := clusterStream.Read(out, at, toRead);
      if res != 0 {
        return;
      }
      var left := total - toRead;
      if left > 0 {
        res := ReadInternal(cluster, offset + toRead, left, out, at + toRead);
      }
    }

    /** The condition under which fat16_read succeeds: every element fits a cluster and starts in the first one. */
    predicate Readable(pos: nat, size: nat, nmemb: nat) {
      nmemb == 0 || (size <= ClusterBytes() && pos + (nmemb - 1) * size < ClusterBytes())
    }

    /** The bytes that fat16_read delivers before it ends or fails. */
    function Reach(pos: nat, size: nat, nmemb: nat): nat
      decreases nmemb
    {
      if nmemb == 0 || pos >= ClusterBytes() then 0
      else if size > ClusterBytes() then ClusterBytes()
      else size + Reach(pos + size, size, nmemb - 1)
    }

    lemma {:induction false} ReachAll(pos: nat, size: nat, nmemb: nat)
      requires Readable(pos, size, nmemb)
      ensures Reach(pos, size, nmemb) == nmemb * size
      decreases nmemb
    {
      if nmemb > 0 {
        Scale(0, nmemb, size);
        if nmemb > 1 { Scale(nmemb - 2, nmemb - 1, size); }
        Peel(nmemb, size);
        ReachAll(pos + size, size, nmemb - 1);
      }
    }

    /** fat16_read at descriptor position pos, which it does not advance: the data sectors that it reads are on the
        disk, and, when it does not succeed, the position that it takes for the table's. */
    method Read(high: nat, low: nat, pos: nat, size: nat, nmemb: nat, out: array<Byte>) returns (res: int)
      requires Valid() && nmemb * size <= out.Length
      requires nmemb > 0 && pos < ClusterBytes() ==>
                 DataOnDisk(ClusterStart(header, BitOr(high, low)) + pos, Reach(pos, size, nmemb))
      requires !Readable(pos, size, nmemb) ==> FatOnDisk(BitOr(high, low))
      modifies clusterStream, fatStream, out
      ensures res == if Readable(pos, size, nmemb) then nmemb else -EIO
      ensures if nmemb > 0 && pos < ClusterBytes()
              then var cluster := BitOr(high, low);
                   var sector := FirstDataSector(header) + (cluster - 2) * header.sectorsPerCluster;
                   Delivered(old(out[..]), out[..], clusterStream.disk, sector * 512 + pos, 0, Reach(pos, size, nmemb))
              else out[..] == old(out[..])
      ensures Readable(pos, size, nmemb) && nmemb > 0 ==> Reach(pos, size, nmemb) == nmemb * size
    {
      hide Delivered; hide OnDisk; hide BitOr; hide Readable; hide Reach; hide ClusterBytes; hide FirstDataSector;
      hide FatOnDisk;
      if Readable(pos, size, nmemb) { ReachAll(pos, size, nmemb); }
      res := ReadElements(FirstCluster(high, low), pos, size, nmemb, out);
    }

    /** The loop of fat16_read. */
    method ReadElements(cluster: nat, pos: nat, size: nat, nmemb: nat, out: array<Byte>) returns (res: int)
      requires Valid() && Times(nmemb, size) <= out.Length
      requires nmemb > 0 && pos < ClusterBytes() ==>
                 DataOnDisk(ClusterStart(header, cluster) + pos, Reach(pos, size, nmemb))
      requires !Readable(pos, size, nmemb) ==> FatOnDisk(cluster)
      modifies clusterStream, fatStream, out
      ensures res == if Readable(pos, size, nmemb) then nmemb else -EIO
      ensures if nmemb > 0 && pos < ClusterBytes()
              then Delivered(old(out[..]), out[..], clusterStream.disk, ClusterStart(header, cluster) + pos, 0,
                             Reach(pos, size, nmemb))
              else out[..] == old(out[..])
    {
      hide Touched; hide Delivered; hide OnDisk; hide Readable; hide Reach; hide AtMostCluster; hide FatOnDisk;
      hide ClusterStart; hide ClusterBytes; hide Times;
      ghost var before, base := out[..], ClusterStart(header, cluster) + pos;
      var offset, at := pos, 0;
      NoneYet(pos, size, nmemb);
      for i := 0 to nmemb
        invariant at == Times(i, size) && offset == pos + at
        invariant Readable(pos, size, i) && (i > 0 ==> pos < ClusterBytes() && base >= 0)
        invariant Reach(pos, size, nmemb) == at + Reach(offset, size, nmemb - i)
        invariant if i == 0 then out[..] == before else Delivered(before, out[..], clusterStream.disk, base, 0, at)
      {
        ghost var mid := out[..];
        Turn(pos, size, nmemb, i, offset);
        if offset < ClusterBytes() {
          OnDiskWithin(clusterStream.disk, base, Reach(pos, size, nmemb), base + at, AtMostCluster(size));
        }
        res := ReadInternal(cluster, offset, size, out, at);
        if i > 0 && offset < ClusterBytes() {
          DeliveredJoin(before, mid, out[..], clusterStream.disk, base, 0, at, AtMostCluster(size));
        }
        if res < 0 {
          return;
        }
        at := at + size;
        offset := offset + size;
      }
      NoneYet(offset, size, 0);
      res := nmemb;
    }

    lemma NoneYet(pos: nat, size: nat, nmemb: nat)
      ensures Readable(pos, size, 0) && Times(0, size) == 0 && (nmemb == 0 || pos >= ClusterBytes() ==>
                Reach(pos, size, nmemb) == 0)
    {
    }

    /** One turn of the loop of fat16_read: where it goes on, and what it delivers if it does not. */
    lemma Turn(pos: nat, size: nat, nmemb: nat, i: nat, offset: nat)
      requires i < nmemb && offset == pos + Times(i, size) && Readable(pos, size, i)
      ensures pos <= offset && (i == 0 ==> pos == offset)
      ensures Times(i + 1, size) == Times(i, size) + size <= Times(nmemb, size)
      ensures offset < ClusterBytes() && size <= ClusterBytes() ==>
                && Readable(pos, size, i + 1) && AtMostCluster(size) == size
                && Reach(offset, size, nmemb - i) == size + Reach(offset + size, size, nmemb - i - 1)
      ensures offset >= ClusterBytes() || size > ClusterBytes() ==>
                && !Readable(pos, size, nmemb)
                && Reach(offset, size, nmemb - i) == if offset < ClusterBytes() then AtMostCluster(size) else 0
    {
      hide ClusterBytes;
      Scale(i, nmemb, size);
    }
  }

  /** The bytes of n elements. */
  function Times(n: nat, size: nat): nat { n * size }

  lemma Peel(n: nat, size: nat)
    requires n > 0
    ensures n * size == size + (n - 1) * size
  {
  }

  lemma Scale(i: nat, n: nat, size: nat)
    requires i < n
    ensures (i + 1) * size <= n * size && (i + 1) * size == i * size + size && i * size <= (n - 1) * size
  {
    var d := n - 1 - i;
    assert n * size == (i + 1) * size + d * size;
    assert d * size >= 0;
    assert (n - 1) * size == i * size + d * size;
  }

  lemma Ahead(offset: nat, size: nat)
    requires size >= 1
    ensures offset / size == 0 <==> offset < size
    ensures offset < size ==> offset % size == offset
  {
    if offset < size { ModUnique(offset, size, 0, offset); }
    assert offset == offset / size * size + offset % size;
  }

  lemma OnDiskWithin(disk: seq<Byte>, base: nat, span: nat, pos: nat, total: nat)
    requires OnDisk(disk, base, span) && base <= pos && pos + total <= base + span
    ensures OnDisk(disk, pos, total)
  {
  }
}
