/** The on-disk layout of a mounted FAT32 volume and the links of its allocation table. */
module FatFormat {
  import opened Machine
  import opened Disk

  datatype Status = OK | EINVAL | EIO | EBADFS | ENOTFOUND | ENOTDIR | EISDIR | ELOOP | ENOSPC

  const MAX_SECTOR_SIZE: nat := 4096
  const END_OF_CHAIN: Word := 0x0fff_ffff

  /** The fields fat32_mount derives from the boot sector. */
  datatype Geometry = Geometry(
    volumeStart: Word, bytesPerSector: Word, sectorsPerCluster: Word, reservedSectors: Word, fatStart: Word,
    fatSectors: Word, dataStart: Word, clusterCount: Word, rootCluster: Word)

  /** First sector past the data area. */
  function DataEnd(g: Geometry): nat {
    g.dataStart + g.clusterCount * g.sectorsPerCluster
  }

  /**
   What mounting guarantees: the table precedes the data, both lie inside
   32-bit sector numbers and the device, and the table covers every cluster.
   */
  ghost predicate GeometryOk(d: Medium, g: Geometry) {
    && g.bytesPerSector == d.sectorSize && 512 <= g.bytesPerSector <= MAX_SECTOR_SIZE && g.bytesPerSector % 4 == 0
    && 1 <= g.sectorsPerCluster <= 128
    && 1 <= g.fatStart && g.fatStart + g.fatSectors <= g.dataStart
    && 1 <= g.clusterCount <= 0x0fff_fff5
    && g.volumeStart + DataEnd(g) <= 0xffff_ffff
    && (d.sectorCount != 0 ==> g.volumeStart + DataEnd(g) <= d.sectorCount)
    && 4 * (g.clusterCount + 2) <= g.fatSectors * g.bytesPerSector
    && ValidCluster(g, g.rootCluster)
  }

  predicate ValidCluster(g: Geometry, cluster: Word) {
    cluster >= 2 && cluster - 2 < g.clusterCount
  }

  function ClusterBytes(g: Geometry): nat {
    g.sectorsPerCluster * g.bytesPerSector
  }

  /** Sector k of a cluster, relative to the volume. */
  function DataSector(g: Geometry, cluster: Word, k: nat): int {
    g.dataStart + (cluster - 2) * g.sectorsPerCluster + k
  }

  /** Byte of a sector of the volume. */
  function VolumeByte(d: Medium, g: Geometry, sector: int, offset: int): Byte {
    d.data(g.volumeStart + sector, offset)
  }

  // --------------------------------------------------------------- links

  datatype Link = Next(cluster: Word) | End | Bad

  /** The table entry of a cluster, reserved bits included. */
  function TableEntry(d: Medium, g: Geometry, cluster: Word): Word
    requires g.bytesPerSector != 0
  {
    var sector, k := g.fatStart + 4 * cluster / g.bytesPerSector, 4 * cluster % g.bytesPerSector;
    LE32(VolumeByte(d, g, sector, k), VolumeByte(d, g, sector, k + 1),
         VolumeByte(d, g, sector, k + 2), VolumeByte(d, g, sector, k + 3))
  }

  /** What a 28-bit entry says: end marks, then the reserved values, then cluster numbers. */
  function Decoded(g: Geometry, entry: Word): Link {
    var value := entry % 0x1000_0000;
    if value >= 0x0fff_fff8 then End
    else if value >= 0x0fff_fff0 then Bad
    else if ValidCluster(g, value) then Next(value)
    else Bad
  }

  function LinkOf(d: Medium, g: Geometry, cluster: Word): Link
    requires g.bytesPerSector != 0
  {
    Decoded(g, TableEntry(d, g, cluster))
  }

  /**
   What the 28 significant bits of a table entry mean: from 0x0ffffff8 up the end
   of the chain; below 0x0ffffff0 the next cluster if it is one; all else is bad.
   */
  lemma EntryMeans(d: Medium, g: Geometry, cluster: Word)
    requires g.bytesPerSector != 0
    ensures var value, link := TableEntry(d, g, cluster) % 0x1000_0000, LinkOf(d, g, cluster);
            && (link == End <==> value >= 0x0fff_fff8)
            && (link.Next? <==> 2 <= value < g.clusterCount + 2 && value < 0x0fff_fff0)
            && (link.Next? ==> link.cluster == value)
  {
    hide TableEntry;
  }

  // ------------------------------------------------------------ addresses

  lemma MulBelow(a: nat, b: nat, n: nat)
    requires a < b
    ensures a * n + n <= b * n
  {
    assert (a + 1) * n <= b * n by { MulMono(a + 1, b, n); }
    assert (a + 1) * n == a * n + n;
  }

  lemma MulMono(a: nat, b: nat, n: nat)
    requires a <= b
    ensures a * n <= b * n
  {
    assert b * n == a * n + (b - a) * n;
  }

  /** The table sector of every valid cluster lies in the table, and its entry in one sector. */
  lemma TableAddress(d: Medium, g: Geometry, cluster: Word)
    requires GeometryOk(d, g) && ValidCluster(g, cluster)
    ensures 4 * cluster < 0x1_0000_0000
    ensures 4 * cluster / g.bytesPerSector < g.fatSectors
    ensures 4 * cluster % g.bytesPerSector + 4 <= g.bytesPerSector
    ensures g.fatStart <= g.fatStart + 4 * cluster / g.bytesPerSector < g.dataStart
  {
    var n := g.bytesPerSector;
    DivBelow(4 * cluster, n, g.fatSectors);
    DivParts(4 * cluster, n);
    MultipleOfFour(n, 4 * cluster / n, 4 * cluster % n, cluster);
  }

  lemma DivParts(x: nat, n: nat)
    requires n > 0
    ensures x == n * (x / n) + x % n && 0 <= x % n < n && x / n >= 0
  {
  }

  lemma DivBelow(x: nat, n: nat, f: nat)
    requires n > 0 && x < f * n
    ensures x / n < f
  {
    var q := x / n;
    DivParts(x, n);
    if q >= f {
      MulMono(f, q, n);
    }
  }

  lemma MultipleOfFour(n: nat, q: nat, r: nat, cluster: nat)
    requires n % 4 == 0 && 0 <= r < n && 4 * cluster == n * q + r
    ensures r + 4 <= n
  {
    var m := n / 4;
    assert n * q == 4 * (m * q) by { assert n == 4 * m; assert (4 * m) * q == 4 * (m * q); }
    assert r == 4 * (cluster - m * q);
  }

  /** The disk as one array of bytes. */
  function DiskByte(d: Medium, at: nat): Byte
    requires d.sectorSize != 0
  {
    d.data(at / d.sectorSize, at % d.sectorSize)
  }

  lemma FlatByte(d: Medium, sector: nat, offset: nat)
    requires offset < d.sectorSize
    ensures DiskByte(d, sector * d.sectorSize + offset) == d.data(sector, offset)
  {
    assert sector * d.sectorSize == d.sectorSize * sector;
    DivModUnique(sector * d.sectorSize + offset, d.sectorSize, sector, offset);
  }

  /** The table is an array of four-byte numbers on the disk, from the table's first sector on. */
  lemma TableIsArray(d: Medium, g: Geometry, cluster: Word)
    requires GeometryOk(d, g) && ValidCluster(g, cluster)
    ensures d.sectorSize != 0 && g.bytesPerSector != 0
    ensures var at := (g.volumeStart + g.fatStart) * d.sectorSize + 4 * cluster;
            && at >= 0
            && TableEntry(d, g, cluster)
               == LE32(DiskByte(d, at), DiskByte(d, at + 1), DiskByte(d, at + 2), DiskByte(d, at + 3))
  {
    TableAddress(d, g, cluster);
    hide LE32, DiskByte;
    var n, base := d.sectorSize, g.volumeStart + g.fatStart;
    var q, r := 4 * cluster / n, 4 * cluster % n;
    DivParts(4 * cluster, n);
    assert (base + q) * n == base * n + n * q;
    FlatByte(d, base + q, r);
    FlatByte(d, base + q, r + 1);
    FlatByte(d, base + q, r + 2);
    FlatByte(d, base + q, r + 3);
  }

  /** Every data sector of every valid cluster lies after the table, inside the volume and the device. */
  lemma DataAddress(d: Medium, g: Geometry, cluster: Word, k: nat)
    requires GeometryOk(d, g) && ValidCluster(g, cluster) && k < g.sectorsPerCluster
    ensures g.fatStart + g.fatSectors <= g.dataStart <= DataSector(g, cluster, k) < DataEnd(g)
    ensures g.volumeStart + DataSector(g, cluster, k) < 0xffff_ffff
    ensures d.sectorCount != 0 ==> g.volumeStart + DataSector(g, cluster, k) < d.sectorCount
    ensures 0 <= (cluster - 2) * g.sectorsPerCluster < 0x1_0000_0000
  {
    MulBelow(cluster - 2, g.clusterCount, g.sectorsPerCluster);
    MulMono(0, cluster - 2, g.sectorsPerCluster);
  }

  /** Data sectors of different clusters, and different sectors of one, are different. */
  lemma DataSectorsDistinct(d: Medium, g: Geometry, c1: Word, k1: nat, c2: Word, k2: nat)
    requires GeometryOk(d, g) && ValidCluster(g, c1) && ValidCluster(g, c2)
    requires k1 < g.sectorsPerCluster && k2 < g.sectorsPerCluster && (c1, k1) != (c2, k2)
    ensures DataSector(g, c1, k1) != DataSector(g, c2, k2)
  {
    if c1 < c2 {
      MulBelow(c1 - 2, c2 - 2, g.sectorsPerCluster);
    } else if c2 < c1 {
      MulBelow(c2 - 2, c1 - 2, g.sectorsPerCluster);
    }
  }

  /** The end mark is never a cluster. */
  lemma EndIsNoCluster(d: Medium, g: Geometry)
    requires GeometryOk(d, g)
    ensures !ValidCluster(g, END_OF_CHAIN)
  {
  }
}
