/** Which volume mounting picks, and the geometry it derives from that volume's boot sector. */
module FatMount {
  import opened Options
  import opened Machine
  import opened Disk
  import opened FatFormat

  function Field16(b: seq<Byte>, at: nat): (w: Word)
    requires at + 2 <= |b|
    ensures w < 0x10000
  {
    LE16(b[at], b[at + 1])
  }

  function Field32(b: seq<Byte>, at: nat): Word
    requires at + 4 <= |b|
  {
    LE32(b[at], b[at + 1], b[at + 2], b[at + 3])
  }

  /** looks_like_fat32_bpb */
  predicate LooksLikeBpb(b: seq<Byte>, sectorSize: Word)
    requires |b| >= 512
  {
    var bytesPerSector := Field16(b, 11);
    && Field16(b, 510) == 0xAA55
    && bytesPerSector == sectorSize && 512 <= bytesPerSector <= MAX_SECTOR_SIZE
    && PowerOfTwo(bytesPerSector) && PowerOfTwo(b[13]) && b[13] <= 128
    && Field16(b, 14) != 0 && b[16] != 0 && b[16] <= 2
    && Field16(b, 17) == 0 && Field16(b, 19) == 0 && Field32(b, 32) != 0 && Field32(b, 36) != 0
  }

  // ------------------------------------------------------------ partitions

  datatype Partition = Partition(kind: Byte, start: Word, size: Word)

  /** Entry k of the partition table in a boot record. */
  function PartitionAt(b: seq<Byte>, k: nat): Partition
    requires |b| >= 512 && k < 4
  {
    var at := 446 + 16 * k;
    Partition(b[at + 4], Field32(b, at + 8), Field32(b, at + 12))
  }

  function Partitions(b: seq<Byte>): (ps: seq<Partition>)
    requires |b| >= 512
    ensures |ps| == 4
  {
    [PartitionAt(b, 0), PartitionAt(b, 1), PartitionAt(b, 2), PartitionAt(b, 3)]
  }

  /** The partition types that announce FAT32. */
  predicate Conventional(p: Partition) {
    p.kind == 0x0B || p.kind == 0x0C || p.kind == 0x1B || p.kind == 0x1C
  }

  /** The partitions that are conventional, or those that are not, in table order. */
  function Select(ps: seq<Partition>, conventional: bool): seq<Partition> {
    if ps == [] then []
    else (if Conventional(ps[0]) == conventional then [ps[0]] else []) + Select(ps[1..], conventional)
  }

  /** The order in which partitions are tried. */
  function TryOrder(ps: seq<Partition>): seq<Partition> {
    Select(ps, true) + Select(ps, false)
  }

  /** Worth reading: present and inside the device. */
  predicate Plausible(d: Medium, p: Partition) {
    && p.start != 0 && p.size != 0
    && (d.sectorCount != 0 ==> p.start < d.sectorCount && p.size <= d.sectorCount - p.start)
  }

  /** Its first sector is a FAT32 boot sector whose volume fits the partition and 32-bit sector numbers. */
  predicate Acceptable(d: Medium, p: Partition)
    requires d.sectorSize >= 512
  {
    var b := SectorBytes(d, p.start);
    LooksLikeBpb(b, d.sectorSize) && Field32(b, 32) <= p.size && p.start <= 0xffff_ffff - Field32(b, 32)
  }

  /** The first acceptable partition in ps whose read, the attempts numbered from t, does not fail. */
  function Pick(d: Medium, fails: nat -> bool, t: nat, ps: seq<Partition>): Option<Partition>
    requires d.sectorSize >= 512
    decreases |ps|
  {
    if ps == [] then None
    else if !Plausible(d, ps[0]) then Pick(d, fails, t, ps[1..])
    else if !fails(t) && Acceptable(d, ps[0]) then Some(ps[0])
    else Pick(d, fails, t + 1, ps[1..])
  }

  /** Number of partitions among the first k that are read. */
  function Attempts(d: Medium, ps: seq<Partition>, k: nat): nat
    requires k <= |ps|
  {
    if k == 0 then 0 else Attempts(d, ps, k - 1) + if Plausible(d, ps[k - 1]) then 1 else 0
  }

  /** A candidate that mounting takes: plausible, read without failure, acceptable. */
  ghost predicate Taken(d: Medium, fails: nat -> bool, t: nat, ps: seq<Partition>, k: nat)
    requires d.sectorSize >= 512 && k < |ps|
  {
    Plausible(d, ps[k]) && !fails(t + Attempts(d, ps, k)) && Acceptable(d, ps[k])
  }

  lemma {:induction false} AttemptsShift(d: Medium, ps: seq<Partition>, k: nat)
    requires ps != [] && k < |ps|
    ensures Attempts(d, ps, k + 1) == (if Plausible(d, ps[0]) then 1 else 0) + Attempts(d, ps[1..], k)
  {
    if k > 0 {
      AttemptsShift(d, ps, k - 1);
    }
  }

  /** Pick finds the first candidate in order that is taken, and none exactly when there is none. */
  lemma {:induction false} PickIsFirst(d: Medium, fails: nat -> bool, t: nat, ps: seq<Partition>)
    requires d.sectorSize >= 512
    ensures match Pick(d, fails, t, ps)
            case Some(p) =>
              exists k :: 0 <= k < |ps| && p == ps[k] && Taken(d, fails, t, ps, k)
                          && forall j :: 0 <= j < k ==> !Taken(d, fails, t, ps, j)
            case None => forall j :: 0 <= j < |ps| ==> !Taken(d, fails, t, ps, j)
    decreases |ps|
  {
    hide Acceptable;
    if ps != [] {
      var t' := t + if Plausible(d, ps[0]) then 1 else 0;
      forall j | 0 <= j < |ps[1..]| ensures Taken(d, fails, t, ps, j + 1) <==> Taken(d, fails, t', ps[1..], j) {
        AttemptsShift(d, ps, j);
      }
      if Taken(d, fails, t, ps, 0) {
        assert Pick(d, fails, t, ps) == Some(ps[0]);
      } else {
        PickIsFirst(d, fails, t', ps[1..]);
        assert Pick(d, fails, t, ps) == Pick(d, fails, t', ps[1..]);
        if p :| Pick(d, fails, t, ps) == Some(p) {
          var k :| 0 <= k < |ps[1..]| && p == ps[1..][k] && Taken(d, fails, t', ps[1..], k)
                   && forall j :: 0 <= j < k ==> !Taken(d, fails, t', ps[1..], j);
          assert ps[k + 1] == p && Taken(d, fails, t, ps, k + 1);
          forall j | 0 <= j < k + 1 ensures !Taken(d, fails, t, ps, j) {
            if j > 0 { assert !Taken(d, fails, t', ps[1..], j - 1); }
          }
        } else {
          forall j | 0 <= j < |ps| ensures !Taken(d, fails, t, ps, j) {
            if j > 0 { assert !Taken(d, fails, t', ps[1..], j - 1); }
          }
        }
      }
    }
  }

  /** The partitions not yet tried when a pass starts. */
  function Later(ps: seq<Partition>, pass: nat): seq<Partition> {
    if pass == 0 then TryOrder(ps) else if pass == 1 then Select(ps, false) else []
  }

  /** Passing over one table entry in the pass that tries the conventional ones or the others. */
  lemma SelectStep(ps: seq<Partition>, i: nat, conventional: bool, after: seq<Partition>)
    requires i < |ps|
    ensures Select(ps[i..], conventional) + after
            == (if Conventional(ps[i]) == conventional then [ps[i]] else [])
               + (Select(ps[i + 1..], conventional) + after)
  {
    assert ps[i..][1..] == ps[i + 1..] && ps[i..][0] == ps[i];
  }

  lemma LaterStep(ps: seq<Partition>, pass: nat)
    requires pass < 2
    ensures Later(ps, pass) == Select(ps, pass == 0) + Later(ps, pass + 1)
  {
    hide Select;
  }

  /** The partition was picked. */
  predicate Picked(choice: Option<Partition>, start: Word, limit: Word) {
    choice.Some? && choice.value.start == start && choice.value.size == limit
  }

  lemma PickNothing(d: Medium, fails: nat -> bool, t: nat, ps: seq<Partition>)
    requires d.sectorSize >= 512
    ensures Pick(d, fails, t, Later(ps, 2)) == None
  {
  }

  lemma SelectNothing(ps: seq<Partition>, conventional: bool, after: seq<Partition>)
    ensures Select(ps[|ps|..], conventional) + after == after
  {
  }

  lemma PickStep(d: Medium, fails: nat -> bool, t: nat, p: Partition, rest: seq<Partition>)
    requires d.sectorSize >= 512
    ensures Pick(d, fails, t, [p] + rest)
            == if !Plausible(d, p) then Pick(d, fails, t, rest)
               else if !fails(t) && Acceptable(d, p) then Some(p)
               else Pick(d, fails, t + 1, rest)
  {
    assert ([p] + rest)[1..] == rest;
  }

  // -------------------------------------------------------------- geometry

  /** Sectors before the data area: reserved ones and the tables. */
  function DataStart(b: seq<Byte>): nat
    requires |b| >= 512
  {
    Field16(b, 14) + b[16] * Field32(b, 36)
  }

  function Clusters(b: seq<Byte>): int
    requires |b| >= 512 && b[13] != 0
  {
    (Field32(b, 32) - DataStart(b)) / b[13]
  }

  /** The constant fields of a FAT32 boot sector for this device's sector size. */
  predicate ShapeOk(d: Medium, b: seq<Byte>)
    requires |b| >= 512
  {
    && Field16(b, 11) == d.sectorSize && Field16(b, 11) >= 512 && PowerOfTwo(Field16(b, 11)) && Field16(b, 11) % 4 == 0
    && PowerOfTwo(b[13]) && b[13] <= 128
    && Field16(b, 14) != 0 && b[16] != 0 && b[16] <= 2
    && Field16(b, 17) == 0 && Field16(b, 19) == 0 && Field16(b, 22) == 0 && Field16(b, 42) == 0
    && (b[66] == 0x28 || b[66] == 0x29)
  }

  /** The volume's sectors lie in its partition, on the device and in 32 bits. */
  predicate PlaceOk(d: Medium, b: seq<Byte>, start: Word, limit: Word)
    requires |b| >= 512
  {
    && Field32(b, 32) != 0 && Field32(b, 36) != 0 && 2 <= Field32(b, 44) < 0x1000_0000
    && start + Field32(b, 32) <= 0xffff_ffff
    && (limit != 0 ==> Field32(b, 32) <= limit)
    && (d.sectorCount != 0 ==> start + Field32(b, 32) <= d.sectorCount)
  }

  /** There are clusters, the root directory's among them, and the tables cover them. */
  predicate CountsOk(b: seq<Byte>)
    requires |b| >= 512 && b[13] != 0
  {
    && DataStart(b) < Field32(b, 32)
    && 1 <= Clusters(b) <= 0x0fff_fff5 && Field32(b, 44) - 2 < Clusters(b)
    && Clusters(b) + 2 <= Field32(b, 36) * Field16(b, 11) / 4
  }

  /** The boot sector describes a FAT32 volume that fits where it lies. */
  predicate VolumeOk(d: Medium, b: seq<Byte>, start: Word, limit: Word)
    requires |b| >= 512
  {
    ShapeOk(d, b) && PlaceOk(d, b, start, limit) && CountsOk(b)
  }

  /** The 64-bit sums of fat32_mount do not wrap. */
  lemma QuadsFit(b: seq<Byte>)
    requires |b| >= 512 && b[16] <= 2
    ensures Wrap64(Field16(b, 14) + b[16] * Field32(b, 36)) == DataStart(b)
    ensures Wrap64(Field32(b, 36) * Field16(b, 11)) == Field32(b, 36) * Field16(b, 11)
  {
    MulMono(b[16], 2, Field32(b, 36));
    MulMono(Field32(b, 36), 0xffff_ffff, Field16(b, 11));
    MulMono(0, Field32(b, 36), Field16(b, 11));
  }

  /** The geometry fat32_mount stores. */
  function GeometryOf(d: Medium, b: seq<Byte>, start: Word, limit: Word): Geometry
    requires |b| >= 512 && VolumeOk(d, b, start, limit)
  {
    Geometry(start, Field16(b, 11), b[13], Field16(b, 14), Field16(b, 14), Field32(b, 36), DataStart(b), Clusters(b),
             Field32(b, 44))
  }

  /** Every accepted boot sector gives a geometry whose addresses all fit. */
  lemma AcceptedGeometryIsSafe(d: Medium, b: seq<Byte>, start: Word, limit: Word)
    requires |b| >= 512 && d.sectorSize <= MAX_SECTOR_SIZE && VolumeOk(d, b, start, limit)
    ensures GeometryOk(d, GeometryOf(d, b, start, limit))
  {
    var g := GeometryOf(d, b, start, limit);
    var total, spc := Field32(b, 32), b[13];
    DivParts(total - DataStart(b), spc);
    assert Clusters(b) * spc == spc * Clusters(b) <= total - DataStart(b);
    DivParts(Field32(b, 36) * Field16(b, 11), 4);
    MulMono(1, b[16], Field32(b, 36));
  }

  /** Sectors per cluster and bytes per sector are powers of two, so 32-byte slots fill sectors exactly. */
  lemma AcceptedSizes(d: Medium, b: seq<Byte>, start: Word, limit: Word)
    requires |b| >= 512 && d.sectorSize <= MAX_SECTOR_SIZE && VolumeOk(d, b, start, limit)
    ensures b[13] in {1, 2, 4, 8, 16, 32, 64, 128}
    ensures d.sectorSize in {512, 1024, 2048, 4096}
  {
    PowerOfTwoMeans(b[13]);
    PowerOfTwoMeans(Field16(b, 11));
    var j: nat :| j < 32 && b[13] == Pow2(j);
    var k: nat :| k < 32 && Field16(b, 11) == Pow2(k);
    SmallPowers(j);
    SmallPowers(k);
  }

  lemma SmallPowers(k: nat)
    ensures Pow2(k) <= 4096 ==> Pow2(k) in {1, 2, 4, 8, 16, 32, 64, 128, 256, 512, 1024, 2048, 4096}
  {
    if k > 0 {
      SmallPowers(k - 1);
    }
  }

  // --------------------------------------------------------- the whole call

  /** Where the mounted volume starts and the size its partition gives it; 0 for no partition. */
  datatype Choice = Chosen(start: Word, limit: Word) | NoVolume

  /** The volume chosen once sector 0 holds boot: all of the device, or a partition. */
  function Choose(d: Medium, fails: nat -> bool, t: nat, boot: seq<Byte>): Choice
    requires d.sectorSize >= 512 && |boot| >= 512
  {
    if LooksLikeBpb(boot, d.sectorSize) then Chosen(0, 0)
    else if Field16(boot, 510) != 0xAA55 then NoVolume
    else
      match Pick(d, fails, t, TryOrder(Partitions(boot)))
      case None => NoVolume
      case Some(p) => Chosen(p.start, p.size)
  }

  /** The geometry mounting ends with, when reads from attempt t on fail as told; None when it fails. */
  function Mounted(d: Medium, fails: nat -> bool, t: nat): Option<Geometry>
    requires d.sectorSize >= 512
  {
    if fails(t) then None
    else
      match Choose(d, fails, t + 1, SectorBytes(d, 0))
      case NoVolume => None
      case Chosen(start, limit) =>
        var b := SectorBytes(d, start);
        if VolumeOk(d, b, start, limit) then Some(GeometryOf(d, b, start, limit)) else None
  }

  /**
   Mounting succeeds exactly when sector 0 is read and the chosen volume's own
   boot sector describes a fitting volume; the geometry is that sector's.
   */
  lemma MountedIsSafe(d: Medium, fails: nat -> bool, t: nat)
    requires 512 <= d.sectorSize <= MAX_SECTOR_SIZE
    ensures Mounted(d, fails, t).Some? ==> GeometryOk(d, Mounted(d, fails, t).value)
  {
    if Mounted(d, fails, t).Some? {
      var c := Choose(d, fails, t + 1, SectorBytes(d, 0));
      AcceptedGeometryIsSafe(d, SectorBytes(d, c.start), c.start, c.limit);
    }
  }
}
