/** A small volume that mounts, and a file on it whose chain is a loop. */
module FatExamples {
  import opened Options
  import opened Machine
  import opened Disk
  import opened FatFormat
  import opened FatChain
  import opened FatFile
  import opened FatMount

  /** The nonzero bytes of a small volume's boot sector. */
  function SmallByte(i: int): Byte {
    if i == 12 then 2 else if i == 13 || i == 14 || i == 16 || i == 36 then 1
    else if i == 32 then 70 else if i == 44 then 2 else if i == 66 then 0x29
    else if i == 510 then 0x55 else if i == 511 then 0xAA else 0
  }

  /** The table is sector 1; its entry for cluster 2, at byte 8, is 2. */
  function SmallData(sector: int, i: int): Byte {
    if sector == 1 then (if i == 8 then 2 else 0) else SmallByte(i)
  }

  function SmallDisk(): Medium {
    Medium(512, 0, SmallData)
  }

  function SmallGeometry(): Geometry {
    Geometry(0, 512, 1, 1, 1, 1, 2, 68, 2)
  }

  /** There are volumes that mount: this one has 68 clusters of one sector each. */
  lemma SmallVolumeMounts(fails: nat -> bool)
    requires !fails(0)
    ensures var g := Mounted(SmallDisk(), fails, 0);
            g.Some? && g.value == SmallGeometry() && GeometryOk(SmallDisk(), g.value)
  {
    hide PowerOfTwo, SectorBytes, Field16, Field32, DataStart, Clusters, GeometryOk, SmallByte;
    var d := SmallDisk();
    SmallHalves(SectorBytes(d, 0));
    SmallFields(SectorBytes(d, 0));
    PowersHere();
    MountedIsSafe(d, fails, 0);
  }

  lemma PowersHere()
    ensures PowerOfTwo(512) && PowerOfTwo(1)
  {
    assert Pow2(0) == 1 && Pow2(3) == 8 && Pow2(6) == 64 && Pow2(9) == 512;
    PowerOfTwoMeans(512);
    PowerOfTwoMeans(1);
  }

  lemma SmallHalves(b: seq<Byte>)
    requires b == SectorBytes(SmallDisk(), 0)
    ensures b[13] == b[16] == 1 && b[66] == 0x29
    ensures Field16(b, 11) == 512 && Field16(b, 14) == 1 && Field16(b, 510) == 0xAA55
    ensures Field16(b, 17) == Field16(b, 19) == Field16(b, 22) == Field16(b, 42) == 0
  {
    hide Field16, Field32, SectorBytes;
    SmallField(b, 13);
    SmallField(b, 16);
    SmallField(b, 66);
    SmallField(b, 11);
    SmallField(b, 14);
    SmallField(b, 17);
    SmallField(b, 19);
    SmallField(b, 22);
    SmallField(b, 42);
    SmallField(b, 510);
  }

  lemma SmallFields(b: seq<Byte>)
    requires b == SectorBytes(SmallDisk(), 0)
    ensures Field32(b, 32) == 70 && Field32(b, 36) == 1 && Field32(b, 44) == 2
    ensures b[13] != 0 && DataStart(b) == 2 && Clusters(b) == 68
  {
    hide Field16, Field32, SectorBytes;
    SmallHalves(b);
    SmallField(b, 32);
    SmallField(b, 36);
    SmallField(b, 44);
  }

  lemma SmallField(b: seq<Byte>, at: nat)
    requires b == SectorBytes(SmallDisk(), 0) && at + 2 <= 512
    ensures b[at] == SmallByte(at) && Field16(b, at) == LE16(SmallByte(at), SmallByte(at + 1))
    ensures at + 4 <= 512 ==>
              Field32(b, at) == LE32(SmallByte(at), SmallByte(at + 1), SmallByte(at + 2), SmallByte(at + 3))
  {
    hide SmallByte;
    forall i | at <= i < at + 4 && i < 512 ensures b[i] == SmallByte(i) {
      SmallDataAt(0, i);
    }
  }

  lemma SmallDataAt(sector: int, i: int)
    ensures SmallDisk().data(sector, i) == SmallData(sector, i)
  {
  }

  // ------------------------------------------------- a chain that is a loop

  lemma SmallEntry()
    ensures TableEntry(SmallDisk(), SmallGeometry(), 2) == 2
  {
    var d, g := SmallDisk(), SmallGeometry();
    SmallTableByte(8);
    SmallTableByte(9);
    SmallTableByte(10);
    SmallTableByte(11);
    hide SmallDisk, VolumeByte, SmallByte;
    assert g.fatStart + 4 * 2 / g.bytesPerSector == 1 && 4 * 2 % g.bytesPerSector == 8;
  }

  lemma SmallTableByte(i: nat)
    ensures VolumeByte(SmallDisk(), SmallGeometry(), 1, i) == if i == 8 then 2 else 0
  {
    SmallDataAt(1, i);
    hide SmallByte;
  }

  /** Cluster 2 links to itself. */
  lemma SmallLink()
    ensures LinkOf(SmallDisk(), SmallGeometry(), 2) == Next(2)
  {
    SmallEntry();
    hide TableEntry, SmallDisk;
  }

  lemma SmallChain(n: nat)
    ensures Follow(SmallDisk(), SmallGeometry(), 2, n) == Some(2)
  {
    SmallLink();
    hide LinkOf;
    if n > 0 {
      SmallChain(n - 1);
    }
  }

  /**
   A mountable volume with a cyclic chain: a file that starts on it is read
   without complaint up to the volume's 34816 bytes, and gives ELOOP beyond.
   */
  lemma LoopIsRead(fails: nat -> bool, size: Word)
    requires !fails(0) && size > 0
    ensures Mounted(SmallDisk(), fails, 0) == Some(SmallGeometry())
    ensures ClusterBytes(SmallGeometry()) == 512
    ensures Cyclic(SmallDisk(), SmallGeometry(), 2)
    ensures ReadStatus(SmallDisk(), SmallGeometry(), 2, size) == if size <= 34816 then OK else ELOOP
  {
    var d, g := SmallDisk(), SmallGeometry();
    SmallVolumeMounts(fails);
    hide Mounted, Follow, ReadStatus, SmallDisk;
    SmallChain(0);
    SmallChain(1);
    assert Follow(d, g, 2, 0) == Follow(d, g, 2, 1);
    if size <= 34816 {
      CyclicChainsAreReadToo(d, g, 2, size);
    } else {
      LoopMeansTooBig(d, g, 2, size);
    }
  }
}
