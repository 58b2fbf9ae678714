/** boot/stage2/src/fat32/fat32.c: reading a file along its cluster chain. */
module Fat32 {
  import opened Basics

  /** FAT32_BYTES_PER_SECTOR and FAT32_FAT_LAST_CLUSTER */
  const SECTOR: nat := 512
  const LAST_CLUSTER: nat := 0xFFFF_FFFF

  /** fat32_t and the disk behind its reader: the bytes of all sectors, and what the reader
      answers when asked for a sector that is not there. */
  datatype Volume = Volume(fatBegin: nat, clustersBegin: nat, sectorsPerCluster: nat, disk: seq<byte>, failure: nat) {
    predicate Mounted() {
      && fatBegin < U32 && clustersBegin < U32 && 0 < sectorsPerCluster < 256
      && 0 < failure < U32
    }

    function ClusterBytes(): nat {
      SECTOR * sectorsPerCluster
    }

    predicate HasSectors(lba: nat, count: nat) {
      SECTOR * (lba + count) <= |disk|
    }

    function Sectors(lba: nat, count: nat): (bytes: seq<byte>)
      requires HasSectors(lba, count)
      ensures |bytes| == SECTOR * count
    {
      disk[SECTOR * lba..SECTOR * (lba + count)]
    }

    /** fat32_cluster_to_lba, on 32 bits */
    function ClusterToLba(cluster: nat): nat
      requires cluster < U32
    {
      (clustersBegin + (cluster + U32 - 2) % U32 * sectorsPerCluster) % U32
    }

    /** The sector of the table that holds the entry of a cluster. */
    function EntrySector(cluster: nat): nat {
      (fatBegin + cluster / 128) % U32
    }

    /** fat32_next_cluster: a failed read is returned as if it were a cluster. */
    function Next(cluster: nat): (next: nat)
      requires Mounted() && cluster < U32
      ensures next < U32
    {
      if HasSectors(EntrySector(cluster), 1) then
        var ws := Sectors(EntrySector(cluster), 1);
        var e := cluster % 128;
        ws[4 * e] + 0x100 * ws[4 * e + 1] + 0x1_0000 * ws[4 * e + 2] + 0x100_0000 * ws[4 * e + 3]
      else failure
    }
  }

  datatype File = File(cluster: nat, size: nat)

  /** The clusters of a file in order: each leads to the next, and all are on the disk. */
  ghost predicate IsChain(v: Volume, first: nat, chain: seq<nat>)
    requires v.Mounted()
  {
    && (chain != [] ==> chain[0] == first)
    && (forall i :: 0 <= i < |chain| ==> ChainLink(v, chain, i))
  }

  ghost predicate ChainLink(v: Volume, chain: seq<nat>, i: nat)
    requires v.Mounted() && i < |chain|
  {
    && chain[i] < U32 && chain[i] != LAST_CLUSTER
    && v.HasSectors(v.ClusterToLba(chain[i]), v.sectorsPerCluster)
    && (i + 1 < |chain| ==> v.Next(chain[i]) == chain[i + 1])
  }

  /** The cluster behind a chain: what the entry of its last cluster says. */
  function After(v: Volume, first: nat, chain: seq<nat>): nat
    requires v.Mounted() && forall i :: 0 <= i < |chain| ==> chain[i] < U32
  {
    if chain == [] then first else v.Next(chain[|chain| - 1])
  }

  /** There is no cluster behind the chain, or it is not on the disk. */
  ghost predicate Stops(v: Volume, first: nat, chain: seq<nat>)
    requires v.Mounted() && first < U32
  {
    && IsChain(v, first, chain)
    && (forall i :: 0 <= i < |chain| ==> chain[i] < U32)
    && var stop := After(v, first, chain);
       stop == LAST_CLUSTER || !v.HasSectors(v.ClusterToLba(stop), v.sectorsPerCluster)
  }

  /** A chain long enough for the file. */
  ghost predicate Holds(v: Volume, file: File, chain: seq<nat>)
    requires v.Mounted()
  {
    IsChain(v, file.cluster, chain) && file.size <= |chain| * v.ClusterBytes()
  }

  // ----- the chain of the FAT32 format

  /** Entries have 28 bits; the four above them are reserved. */
  const ENTRIES: nat := 0x1000_0000

  /** The clusters of a file as the format has them: each entry's low 28 bits are the next. */
  ghost predicate IsFormatChain(v: Volume, first: nat, chain: seq<nat>)
    requires v.Mounted()
  {
    && (chain != [] ==> chain[0] == first)
    && (forall i :: 0 <= i < |chain| ==> FormatLink(v, chain, i))
  }

  ghost predicate FormatLink(v: Volume, chain: seq<nat>, i: nat)
    requires v.Mounted() && i < |chain|
  {
    && chain[i] < ENTRIES && v.HasSectors(v.ClusterToLba(chain[i]), v.sectorsPerCluster)
    && (i + 1 < |chain| ==> v.Next(chain[i]) % ENTRIES == chain[i + 1])
  }

  /** The entry of a cluster has its reserved bits clear. */
  predicate ReservedClear(v: Volume, cluster: nat)
    requires v.Mounted() && cluster < U32
  {
    v.Next(cluster) < ENTRIES
  }

  lemma FollowsLinkIff(v: Volume, chain: seq<nat>, i: nat)
    requires v.Mounted() && i < |chain| && FormatLink(v, chain, i) && (i + 1 < |chain| ==> FormatLink(v, chain, i + 1))
    ensures chain[i] < U32
    ensures ChainLink(v, chain, i) <==> (i + 1 < |chain| ==> ReservedClear(v, chain[i]))
  {
    hide Volume.Next, Volume.ClusterToLba, Volume.HasSectors;
  }

  /** fat32_next_cluster does not mask: it goes along the chain of the format exactly if the
      reserved bits of the entries on the way are clear. */
  lemma FollowsFormatIff(v: Volume, first: nat, chain: seq<nat>)
    requires v.Mounted() && IsFormatChain(v, first, chain)
    ensures forall i :: 0 <= i < |chain| ==> chain[i] < U32
    ensures IsChain(v, first, chain) <==> forall i :: 0 <= i < |chain| - 1 ==> ReservedClear(v, chain[i])
  {
    hide FormatLink, ChainLink, ReservedClear;
    forall i | 0 <= i < |chain|
      ensures chain[i] < U32 && (ChainLink(v, chain, i) <==> (i + 1 < |chain| ==> ReservedClear(v, chain[i])))
    {
      FollowsLinkIff(v, chain, i);
    }
  }

  /** A table of one sector: the entry of cluster 2 is 3 with the lowest reserved bit set. */
  const RESERVED_SET: Volume :=
    Volume(0, 1, 1, seq(3 * SECTOR, i => if i == 8 then 3 else if i == 11 then 0x10 else 0), 1)

  lemma ReservedBitSet()
    ensures RESERVED_SET.Mounted() && RESERVED_SET.Next(2) == 0x1000_0003
    ensures IsFormatChain(RESERVED_SET, 2, [2, 3]) && !IsChain(RESERVED_SET, 2, [2, 3])
  {
    var v, chain: seq<nat> := RESERVED_SET, [2, 3];
    var ws := v.Sectors(0, 1);
    assert ws[8] == 3 && ws[9] == 0 && ws[10] == 0 && ws[11] == 0x10;
    assert v.EntrySector(2) == 0 && v.Next(2) == 0x1000_0003;
    assert v.ClusterToLba(2) == 1 && v.ClusterToLba(3) == 2;
    assert FormatLink(v, chain, 0) && FormatLink(v, chain, 1);
    FollowsFormatIff(v, 2, chain);
    assert !ReservedClear(v, chain[0]);
  }

  function ClusterData(v: Volume, cluster: nat): (bytes: seq<byte>)
    requires v.Mounted() && cluster < U32
    ensures v.HasSectors(v.ClusterToLba(cluster), v.sectorsPerCluster) ==> |bytes| == v.ClusterBytes()
  {
    if v.HasSectors(v.ClusterToLba(cluster), v.sectorsPerCluster)
    then v.Sectors(v.ClusterToLba(cluster), v.sectorsPerCluster) else []
  }

  /** The concatenated clusters. */
  function Contents(v: Volume, chain: seq<nat>): seq<byte>
    requires v.Mounted() && forall i :: 0 <= i < |chain| ==> chain[i] < U32
  {
    if chain == [] then [] else ClusterData(v, chain[0]) + Contents(v, chain[1..])
  }

  lemma Products(a: int, b: int, n: nat)
    ensures (a + b) * n == a * n + b * n
  {
  }

  lemma {:induction false} ContentsLength(v: Volume, chain: seq<nat>)
    requires v.Mounted() && forall i :: 0 <= i < |chain| ==> chain[i] < U32
    requires forall i :: 0 <= i < |chain| ==> |ClusterData(v, chain[i])| == v.ClusterBytes()
    ensures |Contents(v, chain)| == |chain| * v.ClusterBytes()
  {
    hide ClusterData;
    if chain != [] {
      var n := v.ClusterBytes();
      ContentsLength(v, chain[1..]);
      ContentsUnfold(v, chain);
      Products(1, |chain| - 1, n);
    } else {
      assert Contents(v, chain) == [];
    }
  }

  lemma DropFirst(a: seq<byte>, b: seq<byte>, n: nat)
    requires n <= |b|
    ensures (a + b)[|a| + n..] == b[n..]
  {
  }

  lemma ContentsUnfold(v: Volume, chain: seq<nat>)
    requires v.Mounted() && chain != [] && forall i :: 0 <= i < |chain| ==> chain[i] < U32
    ensures Contents(v, chain) == ClusterData(v, chain[0]) + Contents(v, chain[1..])
  {
  }

  /** Dropping whole clusters drops their bytes. */
  lemma {:induction false} ContentsDrop(v: Volume, chain: seq<nat>, k: nat)
    requires v.Mounted() && k <= |chain| && forall i :: 0 <= i < |chain| ==> chain[i] < U32
    requires forall i :: 0 <= i < |chain| ==> |ClusterData(v, chain[i])| == v.ClusterBytes()
    ensures k * v.ClusterBytes() <= |Contents(v, chain)|
    ensures Contents(v, chain)[k * v.ClusterBytes()..] == Contents(v, chain[k..])
  {
    hide Contents, ClusterData, Volume.ClusterBytes;
    var n := v.ClusterBytes();
    if k == 0 {
      assert chain[0..] == chain;
    } else {
      ContentsDrop(v, chain[1..], k - 1);
      ContentsUnfold(v, chain);
      Products(1, k - 1, n);
      DropFirst(ClusterData(v, chain[0]), Contents(v, chain[1..]), (k - 1) * n);
      assert chain[1..][k - 1..] == chain[k..];
    }
  }

  // ----- where the bytes are, in numbers of the disk

  /** The word of four bytes at one place, the lowest byte first. */
  function Word(disk: seq<byte>, at: nat): (w: nat)
    requires at + 4 <= |disk|
  {
    disk[at] as nat + 0x100 * disk[at + 1] as nat + 0x1_0000 * disk[at + 2] as nat + 0x100_0000 * disk[at + 3] as nat
  }

  lemma ClusterLba(v: Volume, cluster: nat)
    requires v.Mounted() && 2 <= cluster < U32
    requires v.clustersBegin + (cluster - 2) * v.sectorsPerCluster < 0x1_0000_0000
    ensures v.ClusterToLba(cluster) == v.clustersBegin + (cluster - 2) * v.sectorsPerCluster
  {
    LaterIsFurther(0, cluster - 2, v.sectorsPerCluster);
    WrappedOnce(cluster);
    Unwrapped(v.clustersBegin + (cluster - 2) * v.sectorsPerCluster);
  }

  lemma WrappedOnce(cluster: nat)
    requires 2 <= cluster < U32
    ensures (cluster + U32 - 2) % U32 == cluster - 2
  {
  }

  lemma Unwrapped(x: nat)
    requires x < U32
    ensures x % U32 == x
  {
  }

  /** The clusters are numbered from 2 and lie behind each other from the first sector of the
      data on. */
  lemma ClusterIsAt(v: Volume, cluster: nat)
    requires v.Mounted() && 2 <= cluster < U32
    requires v.clustersBegin + (cluster - 2) * v.sectorsPerCluster < 0x1_0000_0000
    ensures var at, end := 512 * (v.clustersBegin + (cluster - 2) * v.sectorsPerCluster),
                           512 * (v.clustersBegin + (cluster - 1) * v.sectorsPerCluster);
            && 0 <= at && end - at == v.ClusterBytes()
            && (v.HasSectors(v.ClusterToLba(cluster), v.sectorsPerCluster) <==> end <= |v.disk|)
            && ClusterData(v, cluster) == if end <= |v.disk| then v.disk[at..end] else []
  {
    hide Volume.ClusterToLba;
    Products(cluster - 2, 1, v.sectorsPerCluster);
    LaterIsFurther(0, cluster - 2, v.sectorsPerCluster);
    ClusterLba(v, cluster);
  }

  /** Two clusters have no byte in common: the one ends before the other begins. */
  lemma ClustersApart(v: Volume, a: nat, b: nat)
    requires v.Mounted() && 2 <= a < b < U32
    requires v.clustersBegin + (b - 2) * v.sectorsPerCluster < 0x1_0000_0000
    ensures SECTOR * v.ClusterToLba(a) + v.ClusterBytes() <= SECTOR * v.ClusterToLba(b)
  {
    LaterIsFurther(a - 1, b - 2, v.sectorsPerCluster);
    LaterIsFurther(a - 2, b - 2, v.sectorsPerCluster);
    Products(a - 2, 1, v.sectorsPerCluster);
    ClusterLba(v, a);
    ClusterLba(v, b);
  }

  lemma LaterIsFurther(a: nat, b: nat, n: nat)
    requires a <= b
    ensures a * n <= b * n
  {
    Products(a, b - a, n);
    assert (b - a) * n >= 0;
  }

  /** The table has one word a cluster, and its sectors can be read or not one by one. */
  lemma TableWord(v: Volume, cluster: nat)
    requires v.Mounted() && cluster < U32 && v.fatBegin + cluster / 128 < 0x1_0000_0000
    ensures 512 * v.fatBegin + 4 * cluster + 4 <= 512 * (v.fatBegin + cluster / 128 + 1)
    ensures 512 * (v.fatBegin + cluster / 128 + 1) <= |v.disk| ==>
              v.Next(cluster) == Word(v.disk, 512 * v.fatBegin + 4 * cluster)
    ensures 512 * (v.fatBegin + cluster / 128 + 1) > |v.disk| ==> v.Next(cluster) == v.failure
  {
    var sector, e := v.fatBegin + cluster / 128, cluster % 128;
    assert v.EntrySector(cluster) == sector && cluster == cluster / 128 * 128 + e;
    if 512 * (sector + 1) <= |v.disk| {
      assert v.HasSectors(sector, 1);
      assert v.Sectors(sector, 1) == v.disk[512 * sector..512 * sector + 512];
      assert 512 * sector + 4 * e == 512 * v.fatBegin + 4 * cluster;
    }
  }

  /** The clusters are on the disk, and the words of the table lead from each to the next. */
  ghost predicate Laid(v: Volume, chain: seq<nat>) {
    forall i :: 0 <= i < |chain| ==> LaidAt(v, chain, i)
  }

  ghost predicate LaidAt(v: Volume, chain: seq<nat>, i: nat)
    requires i < |chain|
  {
    var c := chain[i];
    && 2 <= c < 0xFFFF_FFFF && v.clustersBegin + (c - 2) * v.sectorsPerCluster < 0x1_0000_0000
    && 512 * (v.clustersBegin + (c - 1) * v.sectorsPerCluster) <= |v.disk|
    && (i + 1 < |chain| ==>
          && v.fatBegin + c / 128 < 0x1_0000_0000 && 512 * (v.fatBegin + c / 128 + 1) <= |v.disk|
          && Word(v.disk, 512 * v.fatBegin + 4 * c) == chain[i + 1])
  }

  /** Such clusters are a chain. */
  lemma LaidIsChain(v: Volume, chain: seq<nat>)
    requires v.Mounted() && Laid(v, chain)
    ensures IsChain(v, if chain == [] then 0 else chain[0], chain)
    ensures forall i :: 0 <= i < |chain| ==> chain[i] < U32
  {
    forall i | 0 <= i < |chain| ensures ChainLink(v, chain, i) {
      assert LaidAt(v, chain, i);
      ClusterIsAt(v, chain[i]);
      if i + 1 < |chain| {
        TableWord(v, chain[i]);
      }
    }
    forall i | 0 <= i < |chain| ensures chain[i] < U32 {
      assert ChainLink(v, chain, i);
    }
  }

  /** Byte k of the file: byte k % n of its cluster number k / n, where n is the length of a
      cluster. */
  ghost function ByteOf(v: Volume, chain: seq<nat>, k: nat): (b: byte)
    requires v.Mounted() && Laid(v, chain) && k < |chain| * (512 * v.sectorsPerCluster)
  {
    var n := 512 * v.sectorsPerCluster;
    ByteIsOnDisk(v, chain, k);
    v.disk[512 * (v.clustersBegin + (chain[k / n] - 2) * v.sectorsPerCluster) + k % n]
  }

  lemma ByteIsOnDisk(v: Volume, chain: seq<nat>, k: nat)
    requires v.Mounted() && Laid(v, chain) && k < |chain| * (512 * v.sectorsPerCluster)
    ensures var n := 512 * v.sectorsPerCluster;
            && 0 <= k / n < |chain| && 0 <= k % n < n && 2 <= chain[k / n]
            && 0 <= (chain[k / n] - 2) * v.sectorsPerCluster
            && 512 * (v.clustersBegin + (chain[k / n] - 2) * v.sectorsPerCluster) + k % n < |v.disk|
  {
    var n := 512 * v.sectorsPerCluster;
    PlaceInCluster(k, n);
    ClustersBefore(k, n, k / n, |chain|);
    assert LaidAt(v, chain, k / n);
    Products(chain[k / n] - 2, 1, v.sectorsPerCluster);
    LaterIsFurther(0, chain[k / n] - 2, v.sectorsPerCluster);
  }

  lemma LaidHere(v: Volume, chain: seq<nat>, i: nat)
    requires Laid(v, chain) && i < |chain|
    ensures LaidAt(v, chain, i)
  {
  }

  /** The concatenated clusters are these bytes. */
  lemma ContentsAt(v: Volume, chain: seq<nat>, k: nat)
    requires v.Mounted() && Laid(v, chain) && k < |chain| * (512 * v.sectorsPerCluster)
    ensures forall i :: 0 <= i < |chain| ==> chain[i] < U32
    ensures k < |Contents(v, chain)| && Contents(v, chain)[k] == ByteOf(v, chain, k)
  {
    hide Contents, ClusterData, IsChain, Laid, Volume.ClusterToLba, Volume.HasSectors;
    var n := v.ClusterBytes();
    ByteIsOnDisk(v, chain, k);
    PlaceInCluster(k, n);
    LaidIsChain(v, chain);
    ChainData(v, if chain == [] then 0 else chain[0], chain);
    ContentsLength(v, chain);
    ContentsDrop(v, chain, k / n);
    ContentsUnfold(v, chain[k / n..]);
    LaidHere(v, chain, k / n);
    ClusterIsAt(v, chain[k / n]);
    assert Contents(v, chain)[k] == Contents(v, chain)[k / n * n..][k % n];
  }

  /** Clusters behind each other. */
  ghost predicate InARow(chain: seq<nat>) {
    forall i :: 0 <= i < |chain| ==> chain[i] == chain[0] + i
  }

  /** A file in clusters behind each other is one piece of the disk. */
  lemma RowIsOnePiece(v: Volume, chain: seq<nat>, k: nat)
    requires v.Mounted() && Laid(v, chain) && InARow(chain) && k < |chain| * (512 * v.sectorsPerCluster)
    ensures var at := 512 * (v.clustersBegin + (chain[0] - 2) * v.sectorsPerCluster);
            0 <= at && at + k < |v.disk| && ByteOf(v, chain, k) == v.disk[at + k]
  {
    var n := 512 * v.sectorsPerCluster;
    ByteIsOnDisk(v, chain, k);
    PlaceInCluster(k, n);
    assert LaidAt(v, chain, 0);
    LaterIsFurther(0, chain[0] - 2, v.sectorsPerCluster);
    PlaceInRow(v.clustersBegin, chain[0] - 2, k / n, v.sectorsPerCluster);
    assert chain[k / n] == chain[0] + k / n;
    assert ByteOf(v, chain, k) ==
           v.disk[512 * (v.clustersBegin + (chain[k / n] - 2) * v.sectorsPerCluster) + k % n];
  }

  lemma PlaceInRow(begin: nat, a: nat, i: nat, s: nat)
    ensures 512 * (begin + (a + i) * s) == 512 * (begin + a * s) + i * (512 * s)
  {
    Products(a, i, s);
    assert 512 * (i * s) == i * (512 * s);
  }

  // ----- what fat32_read is for

  /** The end of a read: the file's end if the read reaches past it. */
  function ReadEnd(file: File, count: nat, offset: nat): nat {
    if offset > file.size then offset else if offset + count > file.size then file.size else offset + count
  }

  /** The count after the comparison on 32 bits. */
  function Clipped(file: File, count: nat, offset: nat): nat
    requires offset <= file.size
  {
    if (count + offset) % U32 > file.size then file.size - offset else count
  }

  /** It stops at the file's end unless the sum wraps to a number inside the file. */
  lemma ClippedIff(file: File, count: nat, offset: nat)
    requires count < U32 && offset <= file.size < U32
    ensures Clipped(file, count, offset) == ReadEnd(file, count, offset) - offset <==>
              (count + offset < U32 || count + offset - U32 > file.size)
  {
  }

  /** 2^32 - 10 bytes asked for from byte 50 of a file of 100: the count is not clipped. */
  lemma SumWraps()
    ensures Clipped(File(2, 100), U32 - 10, 50) == U32 - 10
    ensures ReadEnd(File(2, 100), U32 - 10, 50) == 100
  {
  }

  /** What the caller gets: offset to end of the concatenated clusters. */
  function Wanted(v: Volume, file: File, chain: seq<nat>, count: nat, offset: nat): seq<byte>
    requires v.Mounted() && forall i :: 0 <= i < |chain| ==> chain[i] < U32
    requires ReadEnd(file, count, offset) <= |Contents(v, chain)| || offset > file.size
  {
    if offset > file.size then [] else Contents(v, chain)[offset..ReadEnd(file, count, offset)]
  }

  /** Two adjacent reads are one. */
  lemma AdjacentReads(v: Volume, file: File, chain: seq<nat>, first: nat, second: nat, offset: nat)
    requires v.Mounted() && Holds(v, file, chain) && offset + first <= file.size
    ensures forall i :: 0 <= i < |chain| ==> chain[i] < U32
    ensures |Contents(v, chain)| >= file.size
    ensures Wanted(v, file, chain, first, offset) + Wanted(v, file, chain, second, offset + first) ==
            Wanted(v, file, chain, first + second, offset)
  {
    ChainData(v, file.cluster, chain);
    ContentsLength(v, chain);
  }

  lemma ChainData(v: Volume, first: nat, chain: seq<nat>)
    requires v.Mounted() && IsChain(v, first, chain)
    ensures forall i :: 0 <= i < |chain| ==> chain[i] < U32 && |ClusterData(v, chain[i])| == v.ClusterBytes()
  {
    forall i | 0 <= i < |chain| ensures chain[i] < U32 && |ClusterData(v, chain[i])| == v.ClusterBytes() {
      assert ChainLink(v, chain, i);
    }
  }

  // ----- the code

  /** fat32_skip_clusters, along a chain if there is one, and not beyond the last cluster. */
  method SkipClusters(v: Volume, start: nat, count: nat, ghost chain: seq<nat>) returns (cluster: nat)
    requires v.Mounted() && start < U32
    ensures cluster < U32
    ensures IsChain(v, start, chain) && count < |chain| ==> cluster == chain[count]
    ensures IsChain(v, start, chain) && count >= |chain| && (forall i :: 0 <= i < |chain| ==> chain[i] < U32) ==>
              (count == |chain| || After(v, start, chain) == 0xFFFF_FFFF ==> cluster == After(v, start, chain))
  {
    cluster := start;
    var left: nat := count;
    ghost var good := IsChain(v, start, chain) && forall i :: 0 <= i < |chain| ==> chain[i] < U32;
    while cluster != LAST_CLUSTER && left > 0
      invariant cluster < U32 && left <= count
      invariant IsChain(v, start, chain) && count - left < |chain| ==> cluster == chain[count - left]
      invariant good && count - left == |chain| ==> cluster == After(v, start, chain)
      invariant good && count - left > |chain| ==> After(v, start, chain) != LAST_CLUSTER
      decreases left
    {
      assert IsChain(v, start, chain) && count - left < |chain| ==> ChainLink(v, chain, count - left);
      cluster := v.Next(cluster);
      left := left - 1;
    }
    assert IsChain(v, start, chain) && count - left < |chain| ==> ChainLink(v, chain, count - left);
  }

  /** The inner loop: bytes of one cluster, from one place on, until the cluster or the count ends. */
  method CopyCluster(buf: array<byte>, index: nat, ws: seq<byte>, from: nat, count: nat) returns (copied: nat)
    requires from <= |ws| && index + count <= buf.Length
    modifies buf
    ensures copied == if |ws| - from < count then |ws| - from else count
    ensures buf[..index + copied] == old(buf[..index]) + ws[from..from + copied]
    ensures buf[index + copied..] == old(buf[index + copied..])
  {
    copied := 0;
    while from + copied < |ws| && copied < count
      invariant from + copied <= |ws| && copied <= count
      invariant buf[..index + copied] == old(buf[..index]) + ws[from..from + copied]
      invariant buf[index + copied..] == old(buf[index + copied..])
    {
      buf[index + copied] := ws[from + copied];
      copied := copied + 1;
    }
  }

  /** A chain that is long enough for a read, or one that stops before. */
  ghost predicate Followed(v: Volume, first: nat, chain: seq<nat>, total: nat, offset: nat)
    requires v.Mounted() && first < U32
  {
    && IsChain(v, first, chain)
    && (offset + total <= |chain| * v.ClusterBytes() ||
        (Stops(v, first, chain) &&
         (After(v, first, chain) == LAST_CLUSTER || offset / v.ClusterBytes() <= |chain|)))
  }

  function From(s: seq<byte>, offset: nat): seq<byte> {
    if offset <= |s| then s[offset..] else []
  }

  /** What a read of total bytes leaves in the buffer and returns: it stops early where the
      chain stops, with what was read if the chain ends there, and with the reader's answer if
      the next cluster is off the disk. */
  ghost predicate Outcome(v: Volume, first: nat, chain: seq<nat>, total: nat, offset: nat,
                          was: seq<byte>, now: seq<byte>, ret: int)
    requires v.Mounted()
  {
    && total <= |was| == |now| && (forall i :: 0 <= i < |chain| ==> chain[i] < U32)
    && var bytes := From(Contents(v, chain), offset);
       var n := if total <= |bytes| then total else |bytes|;
       && now == bytes[..n] + was[n..]
       && ret == if n == total || After(v, first, chain) == 0xFFFF_FFFF then AsInt(n) else AsInt(v.failure)
  }

  /** The read a good chain and an unwrapped sum allow. */
  ghost predicate Sound(v: Volume, file: File, chain: seq<nat>, count: nat, offset: nat)
    requires v.Mounted()
  {
    Holds(v, file, chain) && (count + offset < U32 || count + offset - U32 > file.size)
  }

  /** The file's clusters are laid on the disk, and the sum of a read does not wrap into it. */
  ghost predicate LaidFor(v: Volume, file: File, chain: seq<nat>, count: nat, offset: nat) {
    && Laid(v, chain) && (chain != [] ==> chain[0] == file.cluster)
    && file.size <= |chain| * (512 * v.sectorsPerCluster) && offset <= file.size
    && (count + offset < 0x1_0000_0000 || count + offset - 0x1_0000_0000 > file.size)
  }

  lemma LaidIsSound(v: Volume, file: File, chain: seq<nat>, count: nat, offset: nat)
    requires v.Mounted() && LaidFor(v, file, chain, count, offset)
    ensures Sound(v, file, chain, count, offset)
    ensures forall i :: 0 <= i < |chain| ==> chain[i] < U32
  {
    LaidIsChain(v, chain);
  }

  /** The bytes of a read are those of the disk. */
  lemma WantedIsOnDisk(v: Volume, file: File, chain: seq<nat>, count: nat, offset: nat)
    requires v.Mounted() && LaidFor(v, file, chain, count, offset)
    ensures forall i :: 0 <= i < |chain| ==> chain[i] < U32
    ensures |Contents(v, chain)| >= file.size
    ensures var bytes := Wanted(v, file, chain, count, offset);
            && |bytes| == (if offset + count > file.size then file.size - offset else count)
            && (forall k :: 0 <= k < |bytes| ==> bytes[k] == ByteOf(v, chain, offset + k))
  {
    hide Contents, Laid, ByteOf;
    LaidIsSound(v, file, chain, count, offset);
    ChainData(v, file.cluster, chain);
    ContentsLength(v, chain);
    var bytes := Wanted(v, file, chain, count, offset);
    forall k | 0 <= k < |bytes| ensures bytes[k] == ByteOf(v, chain, offset + k) {
      ContentsAt(v, chain, offset + k);
    }
  }

  /** They are one piece of it if the clusters lie behind each other. */
  lemma RowIsRead(v: Volume, file: File, chain: seq<nat>, offset: nat, bytes: seq<byte>)
    requires v.Mounted() && Laid(v, chain) && InARow(chain) && chain != []
    requires offset + |bytes| <= |chain| * (512 * v.sectorsPerCluster)
    requires forall k :: 0 <= k < |bytes| ==> bytes[k] == ByteOf(v, chain, offset + k)
    ensures var at := 512 * (v.clustersBegin + (chain[0] - 2) * v.sectorsPerCluster) + offset;
            bytes != [] ==> 0 <= at && at + |bytes| <= |v.disk| && bytes == v.disk[at..at + |bytes|]
  {
    hide Laid, ByteOf;
    forall k | 0 <= k < |bytes|
      ensures var at := 512 * (v.clustersBegin + (chain[0] - 2) * v.sectorsPerCluster) + offset;
              0 <= at - offset && at + k < |v.disk| && bytes[k] == v.disk[at + k]
    {
      RowIsOnePiece(v, chain, offset + k);
    }
    if bytes != [] {
      RowIsOnePiece(v, chain, offset + |bytes| - 1);
    }
  }

  lemma AsIntPositive(n: nat)
    requires n < U32
    ensures AsInt(n) > 0 || n < 0x8000_0000 ==> AsInt(n) == n
  {
  }

  /** Beyond the end there is nothing to read. */
  lemma BeyondEnd(v: Volume, file: File, chain: seq<nat>, wanted: nat, offset: nat)
    requires v.Mounted() && offset > file.size
    ensures !LaidFor(v, file, chain, wanted, offset)
    ensures Sound(v, file, chain, wanted, offset) ==>
              && (forall i :: 0 <= i < |chain| ==> chain[i] < U32) && |Contents(v, chain)| >= file.size
              && Wanted(v, file, chain, wanted, offset) == []
    ensures AsInt(0) == 0
  {
    hide Contents, ClusterData;
    if Sound(v, file, chain, wanted, offset) {
      ChainData(v, file.cluster, chain);
      ContentsLength(v, chain);
    }
  }

  lemma EndIsInside(file: File, count: nat, offset: nat)
    requires offset <= file.size
    ensures offset <= ReadEnd(file, count, offset) <= file.size
  {
  }

  lemma SoundIsFollowed(v: Volume, file: File, chain: seq<nat>, wanted: nat, offset: nat)
    requires v.Mounted() && Sound(v, file, chain, wanted, offset) && offset <= file.size < U32
    requires file.cluster < U32 && wanted < U32
    ensures Followed(v, file.cluster, chain, Clipped(file, wanted, offset), offset)
    ensures (forall i :: 0 <= i < |chain| ==> chain[i] < U32) && |Contents(v, chain)| >= file.size
    ensures offset + Clipped(file, wanted, offset) == ReadEnd(file, wanted, offset) <= file.size
  {
    hide Contents, ClusterData, IsChain, Stops, After, ReadEnd, Clipped;
    ClippedIff(file, wanted, offset);
    EndIsInside(file, wanted, offset);
    ChainData(v, file.cluster, chain);
    ContentsLength(v, chain);
  }

  lemma SoundRead(v: Volume, file: File, chain: seq<nat>, wanted: nat, offset: nat,
                  was: seq<byte>, now: seq<byte>, ret: int)
    requires v.Mounted() && Sound(v, file, chain, wanted, offset) && offset <= file.size < U32
    requires file.cluster < U32 && wanted < U32
    requires Followed(v, file.cluster, chain, Clipped(file, wanted, offset), offset) ==>
               Outcome(v, file.cluster, chain, Clipped(file, wanted, offset), offset, was, now, ret)
    ensures (forall i :: 0 <= i < |chain| ==> chain[i] < U32) && |Contents(v, chain)| >= file.size
    ensures var bytes := Wanted(v, file, chain, wanted, offset);
            && |bytes| <= |was| == |now| && ret == AsInt(|bytes|)
            && now[..|bytes|] == bytes && now[|bytes|..] == was[|bytes|..]
  {
    hide Contents, ClusterData, Followed, Sound, Clipped, AsInt, After, ReadEnd;
    SoundIsFollowed(v, file, chain, wanted, offset);
  }

  lemma LaidRead(v: Volume, file: File, chain: seq<nat>, wanted: nat, offset: nat,
                 was: seq<byte>, now: seq<byte>, ret: int)
    requires v.Mounted() && LaidFor(v, file, chain, wanted, offset) && offset <= file.size < U32
    requires file.cluster < U32 && wanted < U32
    requires Followed(v, file.cluster, chain, Clipped(file, wanted, offset), offset) ==>
               Outcome(v, file.cluster, chain, Clipped(file, wanted, offset), offset, was, now, ret)
    ensures var n := if offset + wanted > file.size then file.size - offset else wanted;
            && n <= |was| == |now| && ret == AsInt(n) && now[n..] == was[n..]
            && (forall k :: 0 <= k < n ==> now[k] == ByteOf(v, chain, offset + k))
  {
    hide Contents, ByteOf, Laid, Outcome, Followed, Sound, Clipped, AsInt, Wanted;
    LaidIsSound(v, file, chain, wanted, offset);
    SoundRead(v, file, chain, wanted, offset, was, now, ret);
    WantedIsOnDisk(v, file, chain, wanted, offset);
  }

  lemma RowRead(v: Volume, file: File, chain: seq<nat>, wanted: nat, offset: nat, now: seq<byte>, ret: int)
    requires v.Mounted() && LaidFor(v, file, chain, wanted, offset) && InARow(chain) && 0 < ret <= |now|
    requires var n := if offset + wanted > file.size then file.size - offset else wanted;
             && ret == n && (forall k :: 0 <= k < n ==> now[k] == ByteOf(v, chain, offset + k))
    ensures var at := 512 * (v.clustersBegin + (file.cluster - 2) * v.sectorsPerCluster) + offset;
            0 <= at && at + ret <= |v.disk| && now[..ret] == v.disk[at..at + ret]
  {
    hide ByteOf, Laid, InARow;
    RowIsRead(v, file, chain, offset, now[..ret]);
  }

  /** fat32_read: the bytes go to the start of buf. */
  method Read(v: Volume, file: File, buf: array<byte>, wanted: nat, offset: nat,
              ghost chain: seq<nat>) returns (ret: int)
    requires v.Mounted() && file.cluster < U32 && file.size < U32 && wanted < U32 && offset < U32
    requires wanted <= buf.Length
    modifies buf
    ensures Sound(v, file, chain, wanted, offset) ==>
              && (forall i :: 0 <= i < |chain| ==> chain[i] < U32) && |Contents(v, chain)| >= file.size
              && var bytes := Wanted(v, file, chain, wanted, offset);
                 && |bytes| <= buf.Length && ret == AsInt(|bytes|)
                 && buf[..|bytes|] == bytes && buf[|bytes|..] == old(buf[|bytes|..])
    // along a chain that stops too early
    ensures offset <= file.size && Followed(v, file.cluster, chain, Clipped(file, wanted, offset), offset) ==>
              Outcome(v, file.cluster, chain, Clipped(file, wanted, offset), offset, old(buf[..]), buf[..], ret)
    // in numbers of the disk
    ensures LaidFor(v, file, chain, wanted, offset) ==>
              var n := if offset + wanted > file.size then file.size - offset else wanted;
              && n <= buf.Length && ret == AsInt(n) && (n < 0x8000_0000 ==> ret == n)
              && buf[n..] == old(buf[n..])
              && (forall k :: 0 <= k < n ==> buf[k] == ByteOf(v, chain, offset + k))
    // and for clusters behind each other
    ensures LaidFor(v, file, chain, wanted, offset) && InARow(chain) && ret > 0 ==>
              var at := 512 * (v.clustersBegin + (file.cluster - 2) * v.sectorsPerCluster) + offset;
              && 0 <= at && at + ret <= |v.disk| && ret <= buf.Length && buf[..ret] == v.disk[at..at + ret]
    ensures offset > file.size ==> ret == 0 && buf[..] == old(buf[..])
  {
    hide Contents, ClusterData, IsChain, Laid, LaidFor, ByteOf, InARow, Sound, Followed, Outcome, AsInt, Wanted;
    if offset > file.size {
      BeyondEnd(v, file, chain, wanted, offset);
      return 0;
    }
    var count := Clipped(file, wanted, offset);
    ret := ReadOn(v, file, buf, count, offset, chain);
    if LaidFor(v, file, chain, wanted, offset) {
      LaidRead(v, file, chain, wanted, offset, old(buf[..]), buf[..], ret);
      AsIntPositive(if offset + wanted > file.size then file.size - offset else wanted);
      if InARow(chain) && ret > 0 {
        RowRead(v, file, chain, wanted, offset, buf[..], ret);
      }
    }
    if Sound(v, file, chain, wanted, offset) {
      SoundRead(v, file, chain, wanted, offset, old(buf[..]), buf[..], ret);
    }
  }

  /** Two calls for adjacent ranges return what one call returns, unless a sum wraps into
      the file. */
  method ReadTwice(v: Volume, file: File, a: array<byte>, b: array<byte>, first: nat, second: nat, offset: nat,
                   ghost chain: seq<nat>)
    returns (m: int, n: int)
    requires v.Mounted() && file.cluster < U32 && file.size < U32 && Holds(v, file, chain)
    requires offset + first <= file.size && second < U32 && first <= a.Length && second <= b.Length && a != b
    requires offset + first + second < U32 || offset + first + second - U32 > file.size
    modifies a, b
    ensures (forall i :: 0 <= i < |chain| ==> chain[i] < U32) && |Contents(v, chain)| >= file.size
    ensures var bytes := Wanted(v, file, chain, first + second, offset);
            && first <= |bytes| <= first + b.Length && m == AsInt(first) && n == AsInt(|bytes| - first)
            && a[..first] + b[..|bytes| - first] == bytes
  {
    hide Contents, ClusterData, Holds, Volume.Next, Volume.ClusterToLba, Followed, Outcome, LaidFor, InARow, Clipped;
    AdjacentReads(v, file, chain, first, second, offset);
    m := Read(v, file, a, first, offset, chain);
    ghost var left := a[..first];
    n := Read(v, file, b, second, offset + first, chain);
    assert a[..first] == left;
  }

  /** fat32_read once the count is known. */
  method ReadOn(v: Volume, file: File, buf: array<byte>, total: nat, offset: nat,
                ghost chain: seq<nat>) returns (ret: int)
    requires v.Mounted() && file.cluster < U32 && total <= buf.Length
    modifies buf
    ensures Followed(v, file.cluster, chain, total, offset) ==>
              Outcome(v, file.cluster, chain, total, offset, old(buf[..]), buf[..], ret)
  {
    hide Contents, ClusterData, IsChain, Followed, Reading, Stops, Volume.ClusterToLba, Volume.Next, Volume.HasSectors;
    hide Outcome, From, After, AsInt;
    var n := v.ClusterBytes();
    PlaceInCluster(offset, n);
    var skipped: nat := offset / n;
    var cluster: nat := SkipClusters(v, file.cluster, skipped, chain);
    var head: nat, index: nat, count: nat := offset % n, 0, total;
    ghost var good := Followed(v, file.cluster, chain, total, offset);
    ghost var rest: seq<nat>, tail: seq<byte>, stop: nat := [], [], 0;
    if good {
      FollowedIsChain(v, file.cluster, chain, total, offset);
      rest, tail, stop := StartOfRead(v, file, chain, total, offset, skipped, head, cluster);
    }
    ghost var bytes := tail;
    while cluster != LAST_CLUSTER && count > 0
      invariant cluster < U32 && head < n && index + count == total
      invariant good ==> Reading(v, rest, tail, cluster, head, count, stop)
      invariant good ==> buf[..index] + tail == bytes && buf[index..] == old(buf[index..])
      decreases count
    {
      if good {
        StillReading(v, rest, tail, cluster, head, count, stop);
      }
      if !v.HasSectors(v.ClusterToLba(cluster), v.sectorsPerCluster) {
        if good {
          ReadFails(v, file.cluster, chain, total, offset, old(buf[..]), buf[..], index, stop);
        }
        return AsInt(v.failure);
      }
      var ws := v.Sectors(v.ClusterToLba(cluster), v.sectorsPerCluster);
      ghost var done := buf[..index];
      var copied := CopyCluster(buf, index, ws, head, count);
      if good {
        ghost var before := tail;
        rest, tail := NextOfRead(v, rest, tail, cluster, head, count, copied, ws, stop);
        Regroup(done, ws[head..head + copied], tail, before);
      }
      index, count, head := index + copied, count - copied, 0;
      cluster := v.Next(cluster);
    }
    if good {
      StillReading(v, rest, tail, cluster, head, count, stop);
      assert buf[..index] == bytes[..index];
      ReadEnds(v, file.cluster, chain, total, offset, old(buf[..]), buf[..], index);
    }
    ret := AsInt(index);
  }

  lemma ReadFails(v: Volume, first: nat, chain: seq<nat>, total: nat, offset: nat,
                  was: seq<byte>, now: seq<byte>, index: nat, stop: nat)
    requires v.Mounted() && index < total <= |was| == |now| && (forall i :: 0 <= i < |chain| ==> chain[i] < U32)
    requires now[..index] == From(Contents(v, chain), offset) && now[index..] == was[index..]
    requires stop == After(v, first, chain) && stop != LAST_CLUSTER
    ensures Outcome(v, first, chain, total, offset, was, now, AsInt(v.failure))
  {
    hide Contents, From, After, AsInt;
    assert now == now[..index] + now[index..];
  }

  lemma ReadEnds(v: Volume, first: nat, chain: seq<nat>, total: nat, offset: nat,
                 was: seq<byte>, now: seq<byte>, index: nat)
    requires v.Mounted() && index <= total <= |was| == |now| && (forall i :: 0 <= i < |chain| ==> chain[i] < U32)
    requires var bytes := From(Contents(v, chain), offset);
             && index <= |bytes| && now[..index] == bytes[..index] && now[index..] == was[index..]
             && (index == total || (index == |bytes| && After(v, first, chain) == LAST_CLUSTER))
    ensures Outcome(v, first, chain, total, offset, was, now, AsInt(index))
  {
    hide Contents, From, After, AsInt;
    assert now == now[..index] + now[index..];
  }

  lemma FollowedIsChain(v: Volume, first: nat, chain: seq<nat>, total: nat, offset: nat)
    requires v.Mounted() && first < U32 && Followed(v, first, chain, total, offset)
    ensures IsChain(v, first, chain) && forall i :: 0 <= i < |chain| ==> chain[i] < U32
  {
    ChainData(v, first, chain);
  }

  /** Where a read stands: the rest of the chain begins with the cluster, and the bytes still
      to come are the rest's from head on. */
  ghost predicate Reading(v: Volume, rest: seq<nat>, tail: seq<byte>, cluster: nat, head: nat, count: nat, stop: nat)
    requires v.Mounted()
  {
    count > 0 ==>
      && cluster < U32 && IsChain(v, cluster, rest) && (forall i :: 0 <= i < |rest| ==> rest[i] < U32)
      && (count <= |tail| || (Stops(v, cluster, rest) && After(v, cluster, rest) == stop))
      && (if rest == [] then tail == [] else head <= |Contents(v, rest)| && tail == Contents(v, rest)[head..])
  }

  lemma OnDisk(v: Volume, rest: seq<nat>, cluster: nat)
    requires v.Mounted() && rest != [] && IsChain(v, cluster, rest)
    ensures cluster != LAST_CLUSTER && cluster < U32 && v.HasSectors(v.ClusterToLba(cluster), v.sectorsPerCluster)
    ensures ClusterData(v, cluster) == v.Sectors(v.ClusterToLba(cluster), v.sectorsPerCluster)
  {
    assert ChainLink(v, rest, 0);
  }

  lemma Regroup(done: seq<byte>, piece: seq<byte>, after: seq<byte>, before: seq<byte>)
    requires piece + after == before
    ensures (done + piece) + after == done + before
  {
  }

  /** While bytes are wanted the cluster is one of the chain, or the one behind it. */
  lemma StillReading(v: Volume, rest: seq<nat>, tail: seq<byte>, cluster: nat, head: nat, count: nat, stop: nat)
    requires v.Mounted() && Reading(v, rest, tail, cluster, head, count, stop)
    ensures count > 0 && rest != [] ==>
              && cluster != LAST_CLUSTER && cluster < U32 && v.HasSectors(v.ClusterToLba(cluster), v.sectorsPerCluster)
              && ClusterData(v, cluster) == v.Sectors(v.ClusterToLba(cluster), v.sectorsPerCluster)
    ensures count > 0 && rest == [] ==>
              && tail == [] && cluster < U32 && cluster == stop
              && (cluster == LAST_CLUSTER || !v.HasSectors(v.ClusterToLba(cluster), v.sectorsPerCluster))
  {
    hide ClusterData, Contents;
    if count > 0 && rest != [] {
      OnDisk(v, rest, cluster);
    }
  }

  lemma RestOfChain(v: Volume, first: nat, chain: seq<nat>, k: nat)
    requires v.Mounted() && IsChain(v, first, chain) && k < |chain|
    ensures IsChain(v, chain[k], chain[k..])
  {
    forall i | 0 <= i < |chain[k..]| ensures ChainLink(v, chain[k..], i) {
      assert ChainLink(v, chain, k + i);
    }
  }

  lemma StartOfRead(v: Volume, file: File, chain: seq<nat>, total: nat, offset: nat, skipped: nat, head: nat,
                    cluster: nat)
    returns (rest: seq<nat>, tail: seq<byte>, stop: nat)
    requires v.Mounted() && file.cluster < U32 && Followed(v, file.cluster, chain, total, offset)
    requires offset == skipped * v.ClusterBytes() + head && head < v.ClusterBytes() && cluster < U32
    requires skipped == offset / v.ClusterBytes()
    requires skipped < |chain| ==> cluster == chain[skipped]
    requires skipped >= |chain| && (forall i :: 0 <= i < |chain| ==> chain[i] < U32) ==>
               (skipped == |chain| || After(v, file.cluster, chain) == 0xFFFF_FFFF ==>
                  cluster == After(v, file.cluster, chain))
    ensures forall i :: 0 <= i < |chain| ==> chain[i] < U32
    ensures tail == From(Contents(v, chain), offset) && stop == After(v, file.cluster, chain)
    ensures Reading(v, rest, tail, cluster, head, total, stop)
  {
    hide Contents, ClusterData, Volume.ClusterToLba, Volume.Next;
    ChainData(v, file.cluster, chain);
    ContentsLength(v, chain);
    tail, stop := From(Contents(v, chain), offset), After(v, file.cluster, chain);
    rest := [];
    if skipped < |chain| {
      ContentsDrop(v, chain, skipped);
      RestOfChain(v, file.cluster, chain, skipped);
      rest := chain[skipped..];
      ClustersCover(offset, v.ClusterBytes(), skipped, |chain|);
      DropTwice(Contents(v, chain), skipped * v.ClusterBytes(), head);
    } else {
      LaterIsFurther(|chain|, skipped, v.ClusterBytes());
    }
  }

  lemma ClustersCover(offset: nat, n: nat, skipped: nat, count: nat)
    requires skipped < count && offset < skipped * n + n
    ensures offset <= count * n
  {
    LaterIsFurther(skipped + 1, count, n);
    Products(skipped, 1, n);
  }

  lemma ClustersBefore(offset: nat, n: nat, skipped: nat, count: nat)
    requires offset < count * n && skipped * n <= offset
    ensures skipped < count
  {
    assert skipped >= count ==> skipped * n >= count * n;
  }

  lemma PlaceInCluster(offset: nat, n: nat)
    requires n > 0
    ensures offset / n >= 0 && offset == offset / n * n + offset % n
  {
    var w := offset / n;
    assert offset == n * w + offset % n;
    assert w < 0 ==> n * (w + 1) <= 0;
  }

  lemma DropTwice(s: seq<byte>, a: nat, b: nat)
    requires a + b <= |s|
    ensures s[a..][b..] == s[a + b..]
  {
  }

  /** One cluster further. */
  lemma NextOfRead(v: Volume, rest: seq<nat>, tail: seq<byte>, cluster: nat, head: nat, count: nat, copied: nat,
                   ws: seq<byte>, stop: nat)
    returns (rest': seq<nat>, tail': seq<byte>)
    requires v.Mounted() && cluster < U32 && count > 0 && Reading(v, rest, tail, cluster, head, count, stop)
    requires rest != [] && ws == ClusterData(v, cluster) && head <= |ws|
    requires copied == if |ws| - head < count then |ws| - head else count
    ensures ws[head..head + copied] + tail' == tail
    ensures Reading(v, rest', tail', v.Next(cluster), 0, count - copied, stop)
  {
    hide Contents, ClusterData, Volume.Next, Volume.ClusterToLba;
    ContentsUnfold(v, rest);
    assert ChainLink(v, rest, 0);
    rest', tail' := rest[1..], tail[copied..];
    assert tail == ws[head..] + Contents(v, rest');
    if count > copied {
      assert tail' == Contents(v, rest');
      NothingInNoClusters(v);
      ChainBehind(v, cluster, rest);
    }
  }

  /** The chain without its first cluster, and what is behind both. */
  lemma ChainBehind(v: Volume, cluster: nat, rest: seq<nat>)
    requires v.Mounted() && rest != [] && IsChain(v, cluster, rest) && cluster < U32
    requires forall i :: 0 <= i < |rest| ==> rest[i] < U32
    ensures IsChain(v, v.Next(cluster), rest[1..])
    ensures After(v, v.Next(cluster), rest[1..]) == After(v, cluster, rest)
  {
    hide Volume.Next, Volume.ClusterToLba;
    assert ChainLink(v, rest, 0);
    if |rest| > 1 {
      RestOfChain(v, cluster, rest, 1);
    }
  }

  lemma NothingInNoClusters(v: Volume)
    requires v.Mounted()
    ensures Contents(v, []) == []
  {
  }
}
