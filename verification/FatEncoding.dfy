/**
 Boot records and boot sectors as a formatting program writes them, and that
 mounting reads back exactly what was written.
 */
module FatEncoding {
  import opened Options
  import opened Machine
  import opened Disk
  import opened FatFormat
  import opened FatMount

  // ------------------------------------------------------ partition tables

  /** The bytes of a partition table entry that mounting ignores: status, first and last address. */
  datatype Rest = Rest(status: Byte, first: seq<Byte>, last: seq<Byte>)

  predicate RestOk(x: Rest) {
    |x.first| == |x.last| == 3
  }

  /** An entry: status, first address, type, last address, start and size. */
  function EncodePartition(p: Partition, x: Rest): (bytes: seq<Byte>)
    requires RestOk(x)
    ensures |bytes| == 16
  {
    [x.status] + x.first + [p.kind] + x.last + Bytes32(p.start) + Bytes32(p.size)
  }

  /** A boot record: code, four entries and the signature. */
  function EncodeRecord(code: seq<Byte>, ps: seq<Partition>, xs: seq<Rest>): (bytes: seq<Byte>)
    requires |code| == 446 && |ps| == |xs| == 4 && forall x :: x in xs ==> RestOk(x)
    ensures |bytes| == 512
  {
    code + EncodePartition(ps[0], xs[0]) + EncodePartition(ps[1], xs[1]) + EncodePartition(ps[2], xs[2])
    + EncodePartition(ps[3], xs[3]) + [0x55, 0xAA]
  }

  lemma Field32Back(b: seq<Byte>, at: nat, w: Word)
    requires at + 4 <= |b| && b[at..at + 4] == Bytes32(w)
    ensures Field32(b, at) == w
  {
    hide ByteOf, LE32;
    var bytes := b[at..at + 4];
    assert b[at] == bytes[0] && b[at + 1] == bytes[1] && b[at + 2] == bytes[2] && b[at + 3] == bytes[3];
    WordFromBytes(w);
  }

  lemma PartsOfEntry(p: Partition, x: Rest)
    requires RestOk(x)
    ensures var e := EncodePartition(p, x);
            e[4] == p.kind && e[8..12] == Bytes32(p.start) && e[12..16] == Bytes32(p.size)
  {
    hide Bytes32;
    var e, head, middle := EncodePartition(p, x), [x.status] + x.first, [p.kind] + x.last;
    assert e == head + middle + Bytes32(p.start) + Bytes32(p.size);
    assert |head| == 4 && e[4..8] == middle;
    assert e[4] == e[4..8][0] == p.kind;
  }

  lemma EntryDecodes(b: seq<Byte>, k: nat, p: Partition, x: Rest)
    requires |b| >= 512 && k < 4 && RestOk(x) && b[446 + 16 * k..462 + 16 * k] == EncodePartition(p, x)
    ensures PartitionAt(b, k) == p
  {
    var at, e := 446 + 16 * k, EncodePartition(p, x);
    PartsOfEntry(p, x);
    hide EncodePartition, Bytes32, Field32;
    assert b[at..at + 16][4] == b[at + 4];
    assert b[at + 8..at + 12] == b[at..at + 16][8..12] && b[at + 12..at + 16] == b[at..at + 16][12..16];
    Field32Back(b, at + 8, p.start);
    Field32Back(b, at + 12, p.size);
  }

  /** Decoding the table of any boot record gives back every type, start and size. */
  lemma RecordDecodes(code: seq<Byte>, ps: seq<Partition>, xs: seq<Rest>, padding: seq<Byte>)
    requires |code| == 446 && |ps| == |xs| == 4 && forall x :: x in xs ==> RestOk(x)
    ensures var b := EncodeRecord(code, ps, xs) + padding;
            Partitions(b) == ps && Field16(b, 510) == 0xAA55 && b[..446] == code
  {
    var b := EncodeRecord(code, ps, xs) + padding;
    var e0, e1 := EncodePartition(ps[0], xs[0]), EncodePartition(ps[1], xs[1]);
    var e2, e3 := EncodePartition(ps[2], xs[2]), EncodePartition(ps[3], xs[3]);
    assert b == code + e0 + e1 + e2 + e3 + [0x55, 0xAA] + padding;
    hide EncodeRecord, EncodePartition, PartitionAt;
    assert b[446..462] == e0;
    assert b[462..478] == e1;
    assert b[478..494] == e2;
    assert b[494..510] == e3;
    assert b[510] == 0x55 && b[511] == 0xAA && b[..446] == code;
    EntryDecodes(b, 0, ps[0], xs[0]);
    EntryDecodes(b, 1, ps[1], xs[1]);
    EntryDecodes(b, 2, ps[2], xs[2]);
    EntryDecodes(b, 3, ps[3], xs[3]);
  }

  // ------------------------------------------------------- the partition tried

  /** A partition that mounts when it is read. */
  predicate Usable(d: Medium, p: Partition)
    requires d.sectorSize >= 512
  {
    Plausible(d, p) && Acceptable(d, p)
  }

  predicate AnnouncesFat32(p: Partition) {
    p.kind in {0x0B, 0x0C, 0x1B, 0x1C}
  }

  /** Entry j is tried before entry k: those that announce FAT32 first, otherwise in table order. */
  predicate TriedBefore(ps: seq<Partition>, j: nat, k: nat)
    requires j < |ps| && k < |ps|
  {
    if AnnouncesFat32(ps[j]) == AnnouncesFat32(ps[k]) then j < k else AnnouncesFat32(ps[j])
  }

  /** No entry of that kind is usable. */
  predicate NoneUsable(d: Medium, ps: seq<Partition>, kind: bool)
    requires d.sectorSize >= 512
  {
    forall j :: 0 <= j < |ps| && AnnouncesFat32(ps[j]) == kind ==> !Usable(d, ps[j])
  }

  /** Taking the entries of one kind in order, with no read failing. */
  lemma SelectTakes(d: Medium, fails: nat -> bool, t: nat, ps: seq<Partition>, kind: bool, rest: seq<Partition>)
    returns (u: nat)
    requires d.sectorSize >= 512 && ps != [] && forall n :: !fails(n)
    ensures Pick(d, fails, t, Select(ps, kind) + rest)
            == if AnnouncesFat32(ps[0]) == kind && Usable(d, ps[0]) then Some(ps[0])
               else Pick(d, fails, u, Select(ps[1..], kind) + rest)
  {
    hide Acceptable, Plausible;
    var p, more := ps[0], Select(ps[1..], kind) + rest;
    u := if AnnouncesFat32(p) == kind && Plausible(d, p) then t + 1 else t;
    if AnnouncesFat32(p) == kind {
      assert Select(ps, kind) + rest == [p] + more;
      PickStep(d, fails, t, p, more);
    } else {
      assert Select(ps, kind) + rest == more;
    }
    hide Pick;
  }

  lemma {:induction false} PickFirst(d: Medium, fails: nat -> bool, t: nat, ps: seq<Partition>, kind: bool,
                                     rest: seq<Partition>, k: nat)
    requires d.sectorSize >= 512 && forall n :: !fails(n)
    requires k < |ps| && AnnouncesFat32(ps[k]) == kind && Usable(d, ps[k]) && NoneUsable(d, ps[..k], kind)
    ensures Pick(d, fails, t, Select(ps, kind) + rest) == Some(ps[k])
    decreases k
  {
    hide Usable, AnnouncesFat32, Pick, Select;
    var u := SelectTakes(d, fails, t, ps, kind, rest);
    if k > 0 {
      assert ps[..k][0] == ps[0] && ps[1..][..k - 1] == ps[..k][1..] && ps[1..][k - 1] == ps[k];
      PickFirst(d, fails, u, ps[1..], kind, rest, k - 1);
    }
  }

  lemma {:induction false} PickNone(d: Medium, fails: nat -> bool, t: nat, ps: seq<Partition>, kind: bool,
                                    rest: seq<Partition>) returns (u: nat)
    requires d.sectorSize >= 512 && (forall n :: !fails(n)) && NoneUsable(d, ps, kind)
    ensures Pick(d, fails, t, Select(ps, kind) + rest) == Pick(d, fails, u, rest)
    decreases |ps|
  {
    if ps == [] {
      assert Select(ps, kind) + rest == rest;
      u := t;
    } else {
      hide Usable, AnnouncesFat32, Pick, Select;
      var v := SelectTakes(d, fails, t, ps, kind, rest);
      assert forall j :: 0 <= j < |ps[1..]| ==> ps[1..][j] == ps[j + 1];
      u := PickNone(d, fails, v, ps[1..], kind, rest);
    }
  }

  /** With no read failing, mounting picks the usable entry that is tried first. */
  lemma PickedFirst(d: Medium, fails: nat -> bool, t: nat, ps: seq<Partition>, k: nat)
    requires d.sectorSize >= 512 && (forall n :: !fails(n)) && k < |ps| && Usable(d, ps[k])
    requires forall j :: 0 <= j < |ps| && TriedBefore(ps, j, k) ==> !Usable(d, ps[j])
    ensures Pick(d, fails, t, TryOrder(ps)) == Some(ps[k])
  {
    hide Usable, Pick, Select, AnnouncesFat32;
    if AnnouncesFat32(ps[k]) {
      assert forall j :: 0 <= j < k ==> ps[..k][j] == ps[j];
      PickFirst(d, fails, t, ps, true, Select(ps, false), k);
    } else {
      var u := PickNone(d, fails, t, ps, true, Select(ps, false));
      assert Select(ps, false) + [] == Select(ps, false);
      PickFirst(d, fails, u, ps, false, [], k);
    }
  }

  // ---------------------------------------------------------- boot sectors

  /** What a formatting program decides about a FAT32 volume; slack is what is left of the last cluster. */
  datatype Format = Format(
    sectorsPerCluster: Word, reserved: Word, tables: Word, tableSectors: Word, clusters: Word, slack: nat, root: Word,
    signature: Byte)

  function TablesEnd(f: Format): int {
    f.reserved + f.tables * f.tableSectors
  }

  function TotalSectors(f: Format): int {
    TablesEnd(f) + f.clusters * f.sectorsPerCluster + f.slack
  }

  /** Allowed sizes, clusters that 28-bit numbers reach, and a table with an entry for each. */
  predicate FormatOk(f: Format, sectorSize: Word) {
    && sectorSize in {512, 1024, 2048, 4096} && f.sectorsPerCluster in {1, 2, 4, 8, 16, 32, 64, 128}
    && 1 <= f.reserved < 0x1_0000 && f.tables in {1, 2} && f.tableSectors > 0
    && 1 <= f.clusters <= 0x0fff_fff5 && f.slack < f.sectorsPerCluster && 2 <= f.root < f.clusters + 2
    && 4 * (f.clusters + 2) <= f.tableSectors * sectorSize
    && 0 <= TotalSectors(f) <= 0xffff_ffff
    && (f.signature == 0x28 || f.signature == 0x29)
  }

  /** Byte i of the boot sector; the fields the reader ignores are other's. */
  function BootByte(f: Format, sectorSize: Word, other: int -> Byte, i: int): Byte
    requires FormatOk(f, sectorSize)
  {
    if 11 <= i < 13 then Bytes16(sectorSize)[i - 11]
    else if i == 13 then f.sectorsPerCluster
    else if 14 <= i < 16 then Bytes16(f.reserved)[i - 14]
    else if i == 16 then f.tables
    else if 17 <= i < 21 || 22 <= i < 24 || 42 <= i < 44 then 0
    else if 32 <= i < 36 then Bytes32(TotalSectors(f))[i - 32]
    else if 36 <= i < 40 then Bytes32(f.tableSectors)[i - 36]
    else if 44 <= i < 48 then Bytes32(f.root)[i - 44]
    else if i == 66 then f.signature
    else if i == 510 then 0x55
    else if i == 511 then 0xAA
    else other(i)
  }

  /** The volume's boot sector is in that sector of the disk. */
  predicate HasBoot(d: Medium, sector: int, f: Format, other: int -> Byte)
    requires FormatOk(f, d.sectorSize)
  {
    forall i :: 0 <= i < 512 ==> d.data(sector, i) == BootByte(f, d.sectorSize, other, i)
  }

  lemma BootField16(d: Medium, sector: int, f: Format, other: int -> Byte, at: nat, w: Word)
    requires FormatOk(f, d.sectorSize) && HasBoot(d, sector, f, other) && at + 2 <= 512 && w < 0x1_0000
    requires BootByte(f, d.sectorSize, other, at) == Bytes16(w)[0]
    requires BootByte(f, d.sectorSize, other, at + 1) == Bytes16(w)[1]
    ensures Field16(SectorBytes(d, sector), at) == w
  {
    hide TotalSectors, BootByte, LE16, Bytes16;
    Bytes16Back(w);
    var b := SectorBytes(d, sector);
    assert d.data(sector, at) == b[at] && d.data(sector, at + 1) == b[at + 1];
    assert b[at] == Bytes16(w)[0] && b[at + 1] == Bytes16(w)[1];
  }

  lemma BootField32(d: Medium, sector: int, f: Format, other: int -> Byte, at: nat, w: Word)
    requires FormatOk(f, d.sectorSize) && HasBoot(d, sector, f, other) && at + 4 <= 512
    requires forall i :: at <= i < at + 4 ==> BootByte(f, d.sectorSize, other, i) == Bytes32(w)[i - at]
    ensures Field32(SectorBytes(d, sector), at) == w
  {
    var b := SectorBytes(d, sector);
    assert b[at..at + 4] == Bytes32(w);
    hide FormatOk, BootByte, Bytes32;
    Field32Back(b, at, w);
  }

  /** Reading the boot sector gives back every field. */
  lemma BootDecodes(d: Medium, sector: int, f: Format, other: int -> Byte)
    requires FormatOk(f, d.sectorSize) && HasBoot(d, sector, f, other)
    ensures var b := SectorBytes(d, sector);
            && Field16(b, 11) == d.sectorSize && b[13] == f.sectorsPerCluster && Field16(b, 14) == f.reserved
            && b[16] == f.tables && Field16(b, 17) == Field16(b, 19) == Field16(b, 22) == Field16(b, 42) == 0
            && Field32(b, 32) == TotalSectors(f) && Field32(b, 36) == f.tableSectors && Field32(b, 44) == f.root
            && b[66] == f.signature && Field16(b, 510) == 0xAA55
  {
    hide TotalSectors, Field16, Field32, SectorBytes, Bytes32;
    BootSizes(d, sector, f, other);
    BootZeros(d, sector, f, other);
    BootField32(d, sector, f, other, 32, TotalSectors(f));
    BootField32(d, sector, f, other, 36, f.tableSectors);
    BootField32(d, sector, f, other, 44, f.root);
  }

  lemma BootSizes(d: Medium, sector: int, f: Format, other: int -> Byte)
    requires FormatOk(f, d.sectorSize) && HasBoot(d, sector, f, other)
    ensures var b := SectorBytes(d, sector);
            && Field16(b, 11) == d.sectorSize && b[13] == f.sectorsPerCluster && Field16(b, 14) == f.reserved
            && b[16] == f.tables && b[66] == f.signature && Field16(b, 510) == 0xAA55
  {
    hide TotalSectors, Field16, Field32, Bytes32;
    BootField16(d, sector, f, other, 11, d.sectorSize);
    BootField16(d, sector, f, other, 14, f.reserved);
    BootField16(d, sector, f, other, 510, 0xAA55);
  }

  lemma BootZeros(d: Medium, sector: int, f: Format, other: int -> Byte)
    requires FormatOk(f, d.sectorSize) && HasBoot(d, sector, f, other)
    ensures var b := SectorBytes(d, sector);
            Field16(b, 17) == Field16(b, 19) == Field16(b, 22) == Field16(b, 42) == 0
  {
    hide TotalSectors, Field16, Field32, SectorBytes, Bytes32;
    BootField16(d, sector, f, other, 17, 0);
    BootField16(d, sector, f, other, 19, 0);
    BootField16(d, sector, f, other, 22, 0);
    BootField16(d, sector, f, other, 42, 0);
  }

  lemma SizesArePowers()
    ensures forall n: Word :: n in {1, 2, 4, 8, 16, 32, 64, 128, 512, 1024, 2048, 4096} ==> PowerOfTwo(n)
  {
    hide PowerOfTwo;
    forall n: Word | n in {1, 2, 4, 8, 16, 32, 64, 128, 512, 1024, 2048, 4096} ensures PowerOfTwo(n) {
      IsPower(n);
      PowerOfTwoMeans(n);
    }
  }

  lemma IsPower(n: Word)
    requires n in {1, 2, 4, 8, 16, 32, 64, 128, 512, 1024, 2048, 4096}
    ensures exists k: nat :: k < 32 && n == Pow2(k)
  {
    assert Pow2(0) == 1 && Pow2(1) == 2 && Pow2(2) == 4 && Pow2(3) == 8;
    assert Pow2(4) == 16 && Pow2(5) == 32 && Pow2(6) == 64 && Pow2(7) == 128;
    assert Pow2(9) == 512 && Pow2(10) == 1024 && Pow2(11) == 2048 && Pow2(12) == 4096;
  }

  /** The geometry that was formatted. */
  function Formatted(f: Format, sectorSize: Word, start: Word): Geometry
    requires FormatOk(f, sectorSize)
  {
    FormatFits(f, sectorSize);
    Geometry(start, sectorSize, f.sectorsPerCluster, f.reserved, f.reserved, f.tableSectors, TablesEnd(f), f.clusters,
             f.root)
  }

  lemma FormatFits(f: Format, sectorSize: Word)
    requires FormatOk(f, sectorSize)
    ensures 0 < TablesEnd(f) < TotalSectors(f) <= 0xffff_ffff
  {
    MulMono(1, f.clusters, f.sectorsPerCluster);
    MulMono(1, f.tables, f.tableSectors);
  }

  /** A formatted volume at start, with room on the device and in its partition. */
  predicate HasVolume(d: Medium, start: Word, limit: Word, f: Format, other: int -> Byte)
    requires FormatOk(f, d.sectorSize)
  {
    && HasBoot(d, start, f, other) && start + TotalSectors(f) <= 0xffff_ffff
    && (limit != 0 ==> TotalSectors(f) <= limit)
    && (d.sectorCount != 0 ==> start + TotalSectors(f) <= d.sectorCount)
  }

  lemma VolumeAccepted(d: Medium, start: Word, limit: Word, f: Format, other: int -> Byte)
    requires FormatOk(f, d.sectorSize) && HasVolume(d, start, limit, f, other)
    ensures var b := SectorBytes(d, start);
            && LooksLikeBpb(b, d.sectorSize) && VolumeOk(d, b, start, limit)
            && GeometryOf(d, b, start, limit) == Formatted(f, d.sectorSize, start)
  {
    hide HasBoot, SectorBytes, Field16, Field32, PowerOfTwo;
    BootDecodes(d, start, f, other);
    SizesArePowers();
    FormatFits(f, d.sectorSize);
    ClustersBack(d, start, f, other);
    hide TotalSectors, TablesEnd, Clusters, DataStart;
  }

  lemma ClustersBack(d: Medium, start: int, f: Format, other: int -> Byte)
    requires FormatOk(f, d.sectorSize) && HasBoot(d, start, f, other)
    ensures var b := SectorBytes(d, start);
            b[13] != 0 && DataStart(b) == TablesEnd(f) && Clusters(b) == f.clusters
  {
    hide HasBoot, SectorBytes, Field16, Field32;
    BootDecodes(d, start, f, other);
    assert f.clusters * f.sectorsPerCluster == f.sectorsPerCluster * f.clusters;
    DivModUnique(TotalSectors(f) - TablesEnd(f), f.sectorsPerCluster, f.clusters, f.slack);
  }

  /** A formatted device without partitions mounts, with the geometry it was given. */
  lemma FormattedDeviceMounts(d: Medium, f: Format, other: int -> Byte, fails: nat -> bool, t: nat)
    requires FormatOk(f, d.sectorSize) && HasVolume(d, 0, 0, f, other) && !fails(t)
    ensures Mounted(d, fails, t) == Some(Formatted(f, d.sectorSize, 0))
  {
    hide HasVolume, FormatOk, LooksLikeBpb, VolumeOk, GeometryOf, Formatted, SectorBytes;
    SectorSizes(d, f);
    VolumeAccepted(d, 0, 0, f, other);
  }

  lemma SectorSizes(d: Medium, f: Format)
    requires FormatOk(f, d.sectorSize)
    ensures 512 <= d.sectorSize <= MAX_SECTOR_SIZE
  {
  }

  /**
   A partitioned device mounts the first entry, in the order they are tried,
   that holds a boot sector; if a formatted volume lies there, with that
   volume's geometry.
   */
  lemma FormattedPartitionMounts(d: Medium, code: seq<Byte>, ps: seq<Partition>, xs: seq<Rest>, padding: seq<Byte>,
                                 k: nat, f: Format, other: int -> Byte, fails: nat -> bool, t: nat)
    requires |code| == 446 && |ps| == |xs| == 4 && (forall x :: x in xs ==> RestOk(x)) && k < 4
    requires SectorBytes(d, 0) == EncodeRecord(code, ps, xs) + padding && !LooksLikeBpb(SectorBytes(d, 0), d.sectorSize)
    requires FormatOk(f, d.sectorSize) && ps[k].start != 0 && HasVolume(d, ps[k].start, ps[k].size, f, other)
    requires ps[k].size != 0 && (d.sectorCount != 0 ==> ps[k].start + ps[k].size <= d.sectorCount)
    requires d.sectorSize >= 512 && forall j :: 0 <= j < 4 && TriedBefore(ps, j, k) ==> !Usable(d, ps[j])
    requires forall n :: !fails(n)
    ensures Mounted(d, fails, t) == Some(Formatted(f, d.sectorSize, ps[k].start))
  {
    hide HasVolume, FormatOk, VolumeOk, GeometryOf, Formatted, SectorBytes, EncodeRecord, LooksLikeBpb, TriedBefore;
    hide Usable, Pick, TryOrder, Partitions;
    RecordDecodes(code, ps, xs, padding);
    VolumeAccepted(d, ps[k].start, ps[k].size, f, other);
    PartitionUsable(d, ps[k], f, other);
    PickedFirst(d, fails, t + 1, ps, k);
  }

  lemma PartitionUsable(d: Medium, p: Partition, f: Format, other: int -> Byte)
    requires FormatOk(f, d.sectorSize) && p.start != 0 && p.size != 0 && HasVolume(d, p.start, p.size, f, other)
    requires d.sectorCount != 0 ==> p.start + p.size <= d.sectorCount
    ensures d.sectorSize >= 512 && Usable(d, p)
  {
    hide HasBoot, SectorBytes, LooksLikeBpb, Field32, VolumeOk, GeometryOf;
    BootDecodes(d, p.start, f, other);
    VolumeAccepted(d, p.start, p.size, f, other);
  }

  // ------------------------------------------- whatever mounts was formatted

  /** The bytes on the disk, for the fields the format leaves open. */
  function BytesOf(d: Medium, sector: int): int -> Byte {
    i => d.data(sector, i)
  }

  /** The format a boot sector describes. */
  function FormatOf(b: seq<Byte>): Format
    requires |b| >= 512 && b[13] != 0 && DataStart(b) <= Field32(b, 32)
  {
    Format(b[13], Field16(b, 14), b[16], Field32(b, 36), Wrap32(Clusters(b)), (Field32(b, 32) - DataStart(b)) % b[13],
           Field32(b, 44), b[66])
  }

  lemma FormatSums(total: nat, first: nat, spc: nat)
    requires spc > 0 && first <= total
    ensures var n := total - first;
            first + n / spc * spc + n % spc == total && 0 <= n / spc && 0 <= n % spc < spc
  {
    var n := total - first;
    DivParts(n, spc);
    assert n / spc * spc == spc * (n / spc);
  }

  lemma TableCovers(tableSectors: nat, sectorSize: nat, clusters: nat)
    requires clusters + 2 <= tableSectors * sectorSize / 4
    ensures 4 * (clusters + 2) <= tableSectors * sectorSize
  {
    DivParts(tableSectors * sectorSize, 4);
  }

  lemma FormatOfAccepted(d: Medium, b: seq<Byte>, start: Word, limit: Word)
    requires |b| >= 512 && 512 <= d.sectorSize <= MAX_SECTOR_SIZE && VolumeOk(d, b, start, limit)
    ensures b[13] != 0 && DataStart(b) <= Field32(b, 32)
    ensures FormatOk(FormatOf(b), d.sectorSize) && TotalSectors(FormatOf(b)) == Field32(b, 32)
    ensures TablesEnd(FormatOf(b)) == DataStart(b) && FormatOf(b).clusters == Clusters(b)
  {
    AcceptedSizes(d, b, start, limit);
    hide Field16, Field32, PowerOfTwo, Pow2;
    FormatSums(Field32(b, 32), DataStart(b), b[13]);
    WrapSmall(Clusters(b));
    assert TablesEnd(FormatOf(b)) == DataStart(b);
    hide DataStart;
    TableCovers(Field32(b, 36), Field16(b, 11), Clusters(b));
    hide Wrap32;
  }

  lemma FieldBytes16(b: seq<Byte>, at: nat)
    requires at + 2 <= |b|
    ensures Bytes16(Field16(b, at)) == [b[at], b[at + 1]]
  {
    DivModUnique(Field16(b, at), 0x100, b[at + 1], b[at]);
  }

  lemma FieldBytes32(b: seq<Byte>, at: nat)
    requires at + 4 <= |b|
    ensures Bytes32(Field32(b, at)) == [b[at], b[at + 1], b[at + 2], b[at + 3]]
  {
    DigitsOf(b[at], b[at + 1], b[at + 2], b[at + 3]);
    hide ByteOf, LE32;
  }

  /** Its bytes are the ones that format writes. */
  lemma BytesAreFormatted(d: Medium, start: Word, limit: Word)
    requires 512 <= d.sectorSize <= MAX_SECTOR_SIZE && VolumeOk(d, SectorBytes(d, start), start, limit)
    requires Field16(SectorBytes(d, start), 510) == 0xAA55
    ensures var b := SectorBytes(d, start);
            && b[13] != 0 && DataStart(b) <= Field32(b, 32) && FormatOk(FormatOf(b), d.sectorSize)
            && HasBoot(d, start, FormatOf(b), BytesOf(d, start))
  {
    var b := SectorBytes(d, start);
    FormatOfAccepted(d, b, start, limit);
    hide DataStart, Clusters, FormatOk, PlaceOk, CountsOk, TotalSectors, Field16, Field32, PowerOfTwo, BootByte;
    forall i | 0 <= i < 512
      ensures d.data(start, i) == BootByte(FormatOf(b), d.sectorSize, BytesOf(d, start), i)
    {
      assert b[i] == d.data(start, i);
      if i < 24 {
        LowBytes(b, FormatOf(b), d.sectorSize, BytesOf(d, start), i);
      } else {
        HighBytes(b, FormatOf(b), d.sectorSize, BytesOf(d, start), i);
      }
    }
  }

  lemma LowBytes(b: seq<Byte>, f: Format, sectorSize: Word, other: int -> Byte, i: nat)
    requires |b| >= 512 && i < 24 && FormatOk(f, sectorSize) && other(i) == b[i]
    requires Field16(b, 11) == sectorSize && f.sectorsPerCluster == b[13] && f.reserved == Field16(b, 14)
    requires f.tables == b[16] && Field16(b, 17) == Field16(b, 19) == Field16(b, 22) == 0
    ensures b[i] == BootByte(f, sectorSize, other, i)
  {
    hide TotalSectors, Field16, Bytes16;
    FieldBytes16(b, 11);
    FieldBytes16(b, 14);
    ZeroField(b, 17);
    ZeroField(b, 19);
    ZeroField(b, 22);
  }

  lemma HighBytes(b: seq<Byte>, f: Format, sectorSize: Word, other: int -> Byte, i: nat)
    requires |b| >= 512 && 24 <= i < 512 && FormatOk(f, sectorSize) && other(i) == b[i]
    requires TotalSectors(f) == Field32(b, 32) && f.tableSectors == Field32(b, 36) && f.root == Field32(b, 44)
    requires Field16(b, 42) == 0 && f.signature == b[66] && Field16(b, 510) == 0xAA55
    ensures b[i] == BootByte(f, sectorSize, other, i)
  {
    hide TotalSectors, Field16, Field32, Bytes32;
    FieldBytes32(b, 32);
    FieldBytes32(b, 36);
    FieldBytes32(b, 44);
    ZeroField(b, 42);
    SignatureBytes(b);
  }

  lemma ZeroField(b: seq<Byte>, at: nat)
    requires at + 2 <= |b| && Field16(b, at) == 0
    ensures b[at] == b[at + 1] == 0
  {
  }

  lemma SignatureBytes(b: seq<Byte>)
    requires 512 <= |b| && Field16(b, 510) == 0xAA55
    ensures b[510] == 0x55 && b[511] == 0xAA
  {
  }

  /**
   Nothing else mounts: where mounting succeeds, the disk holds a boot sector
   written from a permitted format, with room for the volume, and the geometry
   is that format's.
   */
  lemma MountedIsFormatted(d: Medium, fails: nat -> bool, t: nat) returns (f: Format)
    requires 512 <= d.sectorSize <= MAX_SECTOR_SIZE && Mounted(d, fails, t).Some?
    ensures var start := Mounted(d, fails, t).value.volumeStart;
            && FormatOk(f, d.sectorSize) && HasVolume(d, start, 0, f, BytesOf(d, start))
            && Mounted(d, fails, t).value == Formatted(f, d.sectorSize, start)
  {
    var c := Choose(d, fails, t + 1, SectorBytes(d, 0));
    ChosenLooksRight(d, fails, t + 1);
    f := AcceptedIsFormatted(d, c.start, c.limit);
    hide FormatOk, Formatted, HasVolume, VolumeOk, GeometryOf, Choose, SectorBytes;
  }

  lemma AcceptedIsFormatted(d: Medium, start: Word, limit: Word) returns (f: Format)
    requires 512 <= d.sectorSize <= MAX_SECTOR_SIZE && VolumeOk(d, SectorBytes(d, start), start, limit)
    requires Field16(SectorBytes(d, start), 510) == 0xAA55
    ensures FormatOk(f, d.sectorSize) && HasVolume(d, start, 0, f, BytesOf(d, start))
    ensures GeometryOf(d, SectorBytes(d, start), start, limit) == Formatted(f, d.sectorSize, start)
  {
    hide HasBoot, SectorBytes, Field16, Field32, FormatOk, DataStart, Clusters, TotalSectors, TablesEnd;
    var b := SectorBytes(d, start);
    FormatOfAccepted(d, b, start, limit);
    BytesAreFormatted(d, start, limit);
    f := FormatOf(b);
  }

  lemma ChosenLooksRight(d: Medium, fails: nat -> bool, t: nat)
    requires d.sectorSize >= 512 && Choose(d, fails, t, SectorBytes(d, 0)).Chosen?
    ensures Field16(SectorBytes(d, Choose(d, fails, t, SectorBytes(d, 0)).start), 510) == 0xAA55
  {
    hide SectorBytes, Field16, TryOrder, Partitions;
    PickedIsAcceptable(d, fails, t, TryOrder(Partitions(SectorBytes(d, 0))));
    hide Pick;
  }

  lemma {:induction false} PickedIsAcceptable(d: Medium, fails: nat -> bool, t: nat, ps: seq<Partition>)
    requires d.sectorSize >= 512
    ensures Pick(d, fails, t, ps).Some? ==> Acceptable(d, Pick(d, fails, t, ps).value)
    decreases |ps|
  {
    hide Acceptable;
    if ps != [] {
      PickedIsAcceptable(d, fails, t, ps[1..]);
      PickedIsAcceptable(d, fails, t + 1, ps[1..]);
    }
  }
}
