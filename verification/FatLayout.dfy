// Where a FAT32 volume keeps things: the fields of its boot sector, its FATs in
// front of the data area, and its clusters side by side in it.
module FatLayout {
  import opened Wrappers
  import opened Bits
  import opened FatVolume
  import opened FatChains

  // ---- The boot sector ----

  function Word16(n: nat): (b: seq<Byte>)
    requires n < 0x1_0000
    ensures |b| == 2
  {
    [n % 0x100, n / 0x100]
  }

  function Word32(n: U32): (b: seq<Byte>)
    ensures |b| == 4
  {
    [n % 0x100, n / 0x100 % 0x100, n / 0x1_0000 % 0x100, n / 0x100_0000]
  }

  /**
   * A boot sector as the FAT32 specification lays it out; the fields the reader
   * does not use are left zero.
   */
  function BootSector(bytesPerSector: nat, sectorsPerCluster: Byte, reserved: nat, fats: Byte,
                      sectorsPerFat: U32, root: U32, signature: seq<Byte>): Sector
    requires bytesPerSector < 0x1_0000 && reserved < 0x1_0000 && |signature| == 2
  {
    seq(11, i => 0) + Word16(bytesPerSector) + [sectorsPerCluster] + Word16(reserved) + [fats]
    + seq(19, i => 0) + Word32(sectorsPerFat) + seq(4, i => 0) + Word32(root)
    + seq(462, i => 0) + signature
  }

  lemma BootFields(bytesPerSector: nat, sectorsPerCluster: Byte, reserved: nat, fats: Byte,
                   sectorsPerFat: U32, root: U32, signature: seq<Byte>)
    requires bytesPerSector < 0x1_0000 && reserved < 0x1_0000 && |signature| == 2
    ensures var b := BootSector(bytesPerSector, sectorsPerCluster, reserved, fats, sectorsPerFat, root, signature);
            && Read16(b, 11) == bytesPerSector && b[13] == sectorsPerCluster && Read16(b, 14) == reserved
            && b[16] == fats && Read32(b, 36) == sectorsPerFat && Read32(b, 44) == root && b[510..] == signature
  {
    hide Word16, Word32;
    var head := seq(11, i => 0) + Word16(bytesPerSector) + [sectorsPerCluster] + Word16(reserved) + [fats];
    var middle := seq(19, i => 0) + Word32(sectorsPerFat) + seq(4, i => 0) + Word32(root);
    var b := BootSector(bytesPerSector, sectorsPerCluster, reserved, fats, sectorsPerFat, root, signature);
    assert b == head + middle + (seq(462, i => 0) + signature);
    assert head[11..13] == Word16(bytesPerSector) && head[14..16] == Word16(reserved);
    assert middle[19..23] == Word32(sectorsPerFat) && middle[27..31] == Word32(root);
    assert b[11..13] == head[11..13] && b[14..16] == head[14..16];
    assert b[36..40] == middle[19..23] && b[44..48] == middle[27..31];
    Word16Reads(b, 11, bytesPerSector);
    Word16Reads(b, 14, reserved);
    Word32Reads(b, 36, sectorsPerFat);
    Word32Reads(b, 44, root);
  }

  lemma Word16Reads(b: seq<Byte>, offset: nat, n: nat)
    requires offset + 2 <= |b| && n < 0x1_0000 && b[offset..offset + 2] == Word16(n)
    ensures Read16(b, offset) == n
  {
    assert b[offset] == Word16(n)[0] && b[offset + 1] == Word16(n)[1];
  }

  lemma Word32Reads(b: seq<Byte>, offset: nat, n: U32)
    requires offset + 4 <= |b| && b[offset..offset + 4] == Word32(n)
    ensures Read32(b, offset) == n
  {
    assert b[offset] == Word32(n)[0] && b[offset + 1] == Word32(n)[1];
    assert b[offset + 2] == Word32(n)[2] && b[offset + 3] == Word32(n)[3];
    FourBytes(n);
  }

  // Round trip: a boot sector is accepted exactly when its signature and its
  // sector size are right, its sizes are not zero and its root is a data
  // cluster, and then every field is recorded.
  lemma BootSectorRoundTrip(bytesPerSector: nat, sectorsPerCluster: Byte, reserved: nat, fats: Byte,
                            sectorsPerFat: U32, root: U32, signature: seq<Byte>, partition: U32)
    requires bytesPerSector < 0x1_0000 && reserved < 0x1_0000 && |signature| == 2
    ensures var b := BootSector(bytesPerSector, sectorsPerCluster, reserved, fats, sectorsPerFat, root, signature);
            && (ValidBootSector(b) <==>
                  && signature == [0x55, 0xaa] && bytesPerSector == 512
                  && sectorsPerCluster != 0 && reserved != 0 && fats != 0 && sectorsPerFat != 0 && root >= 2)
            && var v := VolumeOf(b, partition);
            && v.partitionLba == partition && v.bytesPerSector == bytesPerSector
            && v.sectorsPerCluster == sectorsPerCluster && v.reservedSectors == reserved
            && v.fatCount == fats && v.sectorsPerFat == sectorsPerFat && v.rootCluster == root
            && v.firstDataLba == (partition + reserved + fats * sectorsPerFat) % 0x1_0000_0000
  {
    hide BootSector;
    var b := BootSector(bytesPerSector, sectorsPerCluster, reserved, fats, sectorsPerFat, root, signature);
    BootFields(bytesPerSector, sectorsPerCluster, reserved, fats, sectorsPerFat, root, signature);
    assert b[510..][0] == b[510] && b[510..][1] == b[511];
  }

  // ---- The FATs in front of the data area ----

  /** Sector `j` of copy `k` of the FAT. */
  function FatCopySector(v: Volume, k: nat, j: nat): nat
  {
    v.partitionLba + v.reservedSectors + k * v.sectorsPerFat + j
  }

  /** The data area as the boot sector places it, within the 32-bit sector numbers. */
  predicate Laid(v: Volume)
  {
    v.firstDataLba == v.partitionLba + v.reservedSectors + v.fatCount * v.sectorsPerFat
  }

  lemma LaidWithoutWrap(b: Sector, partition: U32)
    requires partition + Read16(b, 14) + b[16] * Read32(b, 36) < 0x1_0000_0000
    ensures Laid(VolumeOf(b, partition))
  {
    var n := partition + Read16(b, 14) + b[16] * Read32(b, 36);
    QuotientIs(n, LIMIT32, 0, n);
  }

  // Every sector of every copy of the FAT lies before the data area, copy after
  // copy, and the data area begins right after the last of them.
  lemma FatsPrecedeData(v: Volume, k: nat, j: nat)
    requires Laid(v) && k < v.fatCount && j < v.sectorsPerFat
    ensures v.partitionLba + v.reservedSectors <= FatCopySector(v, k, j) < v.firstDataLba
    ensures j + 1 < v.sectorsPerFat ==> FatCopySector(v, k, j + 1) == FatCopySector(v, k, j) + 1
    ensures k + 1 < v.fatCount ==> FatCopySector(v, k + 1, 0) == FatCopySector(v, k, v.sectorsPerFat - 1) + 1
    ensures FatCopySector(v, v.fatCount - 1, v.sectorsPerFat - 1) + 1 == v.firstDataLba
  {
    var n := v.sectorsPerFat;
    assert (k + 1) * n == k * n + n;
    assert (v.fatCount - 1) * n + n == v.fatCount * n;
    assert (k + 1) * n <= v.fatCount * n;
  }

  // The entry of a cluster is looked up in the first copy.
  lemma EntryInFirstFat(v: Volume, cluster: U32)
    requires Laid(v) && v.fatCount > 0 && cluster / 128 < v.sectorsPerFat
    ensures FatSector(v, cluster) == FatCopySector(v, 0, cluster / 128)
  {
    FatsPrecedeData(v, 0, cluster / 128);
    var n := v.partitionLba + v.reservedSectors + cluster / 128;
    QuotientIs(n, LIMIT32, 0, n);
  }

  // ---- The clusters in the data area ----

  /** Where cluster `c` begins, before the sector numbers wrap. */
  function Start(v: Volume, c: nat): nat
    requires c >= 2
  {
    v.firstDataLba + (c - 2) * v.sectorsPerCluster
  }

  // A cluster is as many consecutive sectors as the volume says.
  lemma {:induction false} ClusterIs(v: Volume, c: U32, offset: nat)
    requires c >= 2 && offset <= v.sectorsPerCluster && Start(v, c) + v.sectorsPerCluster <= 0x1_0000_0000
    ensures |ClusterLbas(v, c, offset)| == v.sectorsPerCluster - offset
    ensures forall k :: 0 <= k < v.sectorsPerCluster - offset ==>
              ClusterLbas(v, c, offset)[k] == Start(v, c) + offset + k
    decreases v.sectorsPerCluster - offset
  {
    if offset < v.sectorsPerCluster {
      ClusterIs(v, c, offset + 1);
      var n := Start(v, c) + offset;
      QuotientIs(n, LIMIT32, 0, n);
      assert ClusterLba(v, c, offset) == n;
    }
  }

  lemma NextStart(v: Volume, c: nat)
    requires c >= 2
    ensures Start(v, c + 1) == Start(v, c) + v.sectorsPerCluster
  {
    OneMore(c - 2, v.sectorsPerCluster);
  }

  /** Consecutive sectors. */
  function Sectors(from: nat, n: nat): (lbas: seq<U32>)
    requires from + n <= LIMIT32
    ensures |lbas| == n && forall k :: 0 <= k < n ==> lbas[k] == from + k
  {
    seq(n, k requires 0 <= k < n => from + k)
  }

  // The clusters tile the data area: the first begins where it does, and each
  // next one right after the last sector of the one before.
  lemma ClustersTile(v: Volume, c: U32)
    requires c >= 2 && c + 1 < LIMIT32 && Start(v, c) + 2 * v.sectorsPerCluster <= 0x1_0000_0000
    ensures Start(v, 2) == v.firstDataLba
    ensures ClusterLbas(v, c, 0) == Sectors(Start(v, c), v.sectorsPerCluster)
    ensures ClusterLbas(v, c + 1, 0) == Sectors(Start(v, c) + v.sectorsPerCluster, v.sectorsPerCluster)
  {
    hide Start, ClusterLbas;
    FirstStart(v);
    NextStart(v, c);
    ClusterIsSectors(v, c);
    ClusterIsSectors(v, c + 1);
  }

  lemma FirstStart(v: Volume)
    ensures Start(v, 2) == v.firstDataLba
  {
  }

  lemma OneMore(n: nat, s: nat)
    ensures (n + 1) * s == n * s + s
  {
  }

  lemma {:induction false} Multiples(a: nat, b: nat, s: nat)
    requires a < b
    ensures a * s + s <= b * s
    decreases b
  {
    OneMore(b - 1, s);
    if a < b - 1 {
      Multiples(a, b - 1, s);
    }
  }

  lemma SectorsJoin(from: nat, m: nat, n: nat)
    requires from + m + n <= LIMIT32
    ensures Sectors(from, m) + Sectors(from + m, n) == Sectors(from, m + n)
  {
  }

  lemma StartsApart(v: Volume, c: nat, c': nat)
    requires 2 <= c < c'
    ensures Start(v, c) + v.sectorsPerCluster <= Start(v, c')
  {
    Multiples(c - 2, c' - 2, v.sectorsPerCluster);
  }

  // Two different clusters share no sector.
  lemma ClustersDisjoint(v: Volume, c: U32, c': U32, lba: U32)
    requires 2 <= c < c' && Start(v, c') + v.sectorsPerCluster <= 0x1_0000_0000
    ensures !(lba in ClusterLbas(v, c, 0) && lba in ClusterLbas(v, c', 0))
  {
    hide Start, ClusterLbas;
    StartsApart(v, c, c');
    ClusterIs(v, c, 0);
    ClusterIs(v, c', 0);
  }

  /** The clusters c, c + 1, ..., c + n - 1. */
  function InARow(c: nat, n: nat): (chain: seq<U32>)
    requires c + n <= LIMIT32
    ensures |chain| == n && forall i :: 0 <= i < n ==> chain[i] == c + i
  {
    seq(n, i requires 0 <= i < n => c + i)
  }

  lemma NoSectors(from: nat)
    requires from <= LIMIT32
    ensures Sectors(from, 0) == []
  {
  }

  lemma ClusterIsSectors(v: Volume, c: U32)
    requires c >= 2 && Start(v, c) + v.sectorsPerCluster <= 0x1_0000_0000
    ensures ClusterLbas(v, c, 0) == Sectors(Start(v, c), v.sectorsPerCluster)
  {
    hide Start, ClusterLbas;
    ClusterIs(v, c, 0);
  }

  lemma {:induction false} RowIsSectors(v: Volume, c: nat, n: nat)
    requires c >= 2 && c + n < LIMIT32 && Start(v, c) + n * v.sectorsPerCluster <= 0x1_0000_0000
    ensures FlatLbas(v, InARow(c, n)) == Sectors(Start(v, c), n * v.sectorsPerCluster)
    decreases n
  {
    hide Start, ClusterLbas, Sectors;
    if n == 0 {
      NoSectors(Start(v, c));
    } else {
      OneMore(n - 1, v.sectorsPerCluster);
      NextStart(v, c);
      ClusterIsSectors(v, c);
      RowIsSectors(v, c + 1, n - 1);
      assert InARow(c, n)[1..] == InARow(c + 1, n - 1);
      SectorsJoin(Start(v, c), v.sectorsPerCluster, (n - 1) * v.sectorsPerCluster);
    }
  }

  // A whole chain of clusters in a row is visited as that many consecutive sectors.
  lemma ContiguousChain(d: Disk, v: Volume, c: nat, n: nat)
    requires Mountable(v) && c >= 2 && 1 <= n <= MAX_CLUSTER_STEPS && c + n <= 0x400_0000
    requires Start(v, c) + n * v.sectorsPerCluster <= 0x1_0000_0000 && GoodChain(d, v, InARow(c, n))
    ensures WalkLbas(d, v, c, 0) ==
            Sectors(Start(v, c), n * v.sectorsPerCluster)
  {
    hide WalkLbas, FlatLbas, GoodChain, Visited;
    var chain := InARow(c, n);
    GoodIsData(d, v, chain);
    WalkFollowsChain(d, v, chain);
    VisitedIsChain(chain);
    assert Cut(chain) == chain && chain[0] == c;
    RowIsSectors(v, c, n);
  }

  lemma GoodIsData(d: Disk, v: Volume, chain: seq<U32>)
    requires GoodChain(d, v, chain)
    ensures chain != [] && DataClusters(chain)
  {
  }
}
