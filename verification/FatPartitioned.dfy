/**
 A partitioned disk with a FAT32 volume and one file, written sector by sector:
 it mounts, and the path of the file leads to its bytes.
 */
module FatPartitioned {
  import opened Options
  import opened Machine
  import opened Disk
  import opened FatFormat
  import opened FatChain
  import opened FatNames
  import opened FatPath
  import opened FatDirectory
  import opened FatLookup
  import opened FatFile
  import opened FatMount
  import opened FatEncoding

  const START: Word := 2048
  const FILE_SIZE: Word := 600

  const README: seq<Byte> := [0x52, 0x45, 0x41, 0x44, 0x4D, 0x45]
  const TXT: seq<Byte> := [0x54, 0x58, 0x54]
  /** "readme.txt" */
  const LOWER_NAME: seq<Byte> := [0x72, 0x65, 0x61, 0x64, 0x6D, 0x65, 0x2E, 0x74, 0x78, 0x74]

  // ---------------------------------------------------------------- the disk

  /** One partition of type 0x0C and three unused entries. */
  function Table(): seq<Partition> {
    [Partition(0x0C, START, 204800), Partition(0, 0, 0), Partition(0, 0, 0), Partition(0, 0, 0)]
  }

  function Blank(): Rest {
    Rest(0, [0, 0, 0], [0, 0, 0])
  }

  function Zeros(n: nat): (s: seq<Byte>)
    ensures |s| == n && forall i :: 0 <= i < n ==> s[i] == 0
  {
    seq(n, _ => 0)
  }

  function Record(): (bytes: seq<Byte>)
    ensures |bytes| == 512
  {
    EncodeRecord(Zeros(446), Table(), [Blank(), Blank(), Blank(), Blank()])
  }

  /** One reserved sector, one table of one sector and 68 clusters of one sector. */
  function Volume(): Format {
    Format(1, 1, 1, 1, 68, 0, 2, 0x29)
  }

  /** The root directory is cluster 2; the file has clusters 3 and 4. */
  function Link(cluster: int): Word {
    if cluster == 2 then 0x0fff_ffff else if cluster == 3 then 4 else if cluster == 4 then 0x0fff_fff8 else 0
  }

  function TableByte(i: int): Byte
    requires 0 <= i
  {
    Bytes32(Link(i / 4))[i % 4]
  }

  /** The file's slot, with archive attribute; an empty slot follows. */
  function ReadmeSlot(): (raw: seq<Byte>)
    ensures |raw| == 32
  {
    EncodeSlot(EncodeName(README, TXT), 0x20, Zeros(8), Zeros(4), 3, FILE_SIZE)
  }

  /** What the file's two sectors hold. */
  function FileData(sector: int, i: int): Byte {
    if sector == START + 3 && 0 <= i then i % 0x100 else 0x41
  }

  function DiskData(sector: int, i: int): Byte {
    if i < 0 || i >= 512 then 0
    else if sector == 0 then Record()[i]
    else if sector == START then
      VolumeFits();
      BootByte(Volume(), 512, _ => 0, i)
    else if sector == START + 1 then TableByte(i)
    else if sector == START + 2 then (if i < 32 then ReadmeSlot()[i] else 0)
    else FileData(sector, i)
  }

  function PartitionedDisk(): Medium {
    Medium(512, 0, DiskData)
  }

  lemma VolumeFits()
    ensures FormatOk(Volume(), 512)
  {
  }

  function Geo(): Geometry {
    Geometry(START, 512, 1, 1, 1, 1, 2, 68, 2)
  }

  lemma DataAt(sector: int, i: int)
    ensures PartitionedDisk().data(sector, i) == DiskData(sector, i)
  {
  }

  // ------------------------------------------------------------------ mounting

  /** It mounts, at the start its partition table gives. */
  lemma PartitionedDiskMounts(fails: nat -> bool)
    requires forall n :: !fails(n)
    ensures Mounted(PartitionedDisk(), fails, 0) == Some(Geo())
  {
    hide EncodeRecord, DiskData, BootByte, LooksLikeBpb, FatEncoding.Usable, Mounted, SectorBytes;
    var d, ps := PartitionedDisk(), Table();
    VolumeFits();
    SectorZero();
    BootThere();
    assert Record() + [] == Record();
    assert forall j :: 0 <= j < 4 && TriedBefore(ps, j, 0) ==> false;
    var rests := [Blank(), Blank(), Blank(), Blank()];
    FormattedPartitionMounts(d, Zeros(446), ps, rests, [], 0, Volume(), _ => 0, fails, 0);
  }

  lemma SectorZero()
    ensures SectorBytes(PartitionedDisk(), 0) == Record() && !LooksLikeBpb(Record(), 512)
  {
    hide Record, DiskData;
    forall i | 0 <= i < 512 ensures PartitionedDisk().data(0, i) == Record()[i] {
      DataAt(0, i);
      RecordByte(i);
    }
    RecordNotBpb();
  }

  lemma RecordByte(i: int)
    requires 0 <= i < 512
    ensures DiskData(0, i) == Record()[i]
  {
  }

  lemma RecordNotBpb()
    ensures !LooksLikeBpb(Record(), 512)
  {
    hide EncodeRecord, PartitionAt;
    var b := Record();
    RecordDecodes(Zeros(446), Table(), [Blank(), Blank(), Blank(), Blank()], []);
    assert b + [] == b;
    assert b[11] == b[..446][11] == 0 && b[12] == b[..446][12] == 0;
    WrongSize(b);
  }

  lemma WrongSize(b: seq<Byte>)
    requires |b| >= 512 && b[11] == b[12] == 0
    ensures !LooksLikeBpb(b, 512)
  {
  }

  lemma BootThere()
    ensures FormatOk(Volume(), 512) && HasBoot(PartitionedDisk(), START, Volume(), _ => 0)
  {
    VolumeFits();
    hide BootByte;
    forall i | 0 <= i < 512 ensures PartitionedDisk().data(START, i) == BootByte(Volume(), 512, _ => 0, i) {
      DataAt(START, i);
    }
  }

  // ------------------------------------------------------------------ the table

  lemma EntryOf(cluster: Word)
    requires 2 <= cluster < 70
    ensures TableEntry(PartitionedDisk(), Geo(), cluster) == Link(cluster)
  {
    hide DiskData, ByteOf, LE32, Link, PartitionedDisk;
    TableByteAt(cluster, 0);
    TableByteAt(cluster, 1);
    TableByteAt(cluster, 2);
    TableByteAt(cluster, 3);
    WordFromBytes(Link(cluster));
    DivModUnique(4 * cluster, 512, 0, 4 * cluster);
  }

  lemma TableByteAt(cluster: Word, j: nat)
    requires 2 <= cluster < 70 && j < 4
    ensures VolumeByte(PartitionedDisk(), Geo(), 1, 4 * cluster + j) == ByteOf(Link(cluster), j)
  {
    hide ByteOf, Link;
    DataAt(START + 1, 4 * cluster + j);
    DivModUnique(4 * cluster + j, 4, cluster, j);
  }

  /** The root directory has one cluster, the file two. */
  lemma Chains()
    ensures var d, g := PartitionedDisk(), Geo();
            && LinkOf(d, g, 2) == End && Follow(d, g, 2, 0) == Some(2)
            && Follow(d, g, 3, 0) == Some(3) && Follow(d, g, 3, 1) == Some(4)
  {
    hide TableEntry;
    EntryOf(2);
    EntryOf(3);
  }

  // -------------------------------------------------------------- the directory

  lemma DirectorySlots()
    ensures var slots := ClusterSlots(PartitionedDisk(), Geo(), 2);
            |slots| == 16 && slots[0] == ReadmeSlot() && slots[1][0] == 0
  {
    hide DiskData, ReadmeSlot, SectorBytes;
    var d, g := PartitionedDisk(), Geo();
    var bytes := SectorBytes(d, START + 2);
    assert SectorsSlots(d, g, 2, 0) == [];
    assert SectorsSlots(d, g, 2, 1) == SectorSlots(bytes);
    forall i | 0 <= i < 64 ensures bytes[i] == if i < 32 then ReadmeSlot()[i] else 0 {
      DirectoryByte(i);
    }
    assert SectorSlots(bytes)[0] == bytes[0..32] == ReadmeSlot();
    assert SectorSlots(bytes)[1] == bytes[32..64];
  }

  lemma DirectoryByte(i: int)
    requires 0 <= i < 512
    ensures SectorBytes(PartitionedDisk(), START + 2)[i] == if i < 32 then ReadmeSlot()[i] else 0
  {
    hide ReadmeSlot;
    DataAt(START + 2, i);
  }

  function ReadmeEntry(): Dirent {
    Dirent(README + [DOT] + TXT, 0x20, FILE_SIZE, 3)
  }

  lemma RootLists()
    ensures ListDirectory(PartitionedDisk(), Geo(), 2) == Listing([ReadmeEntry()], OK)
  {
    hide ReadmeSlot, ClusterSlots, PartitionedDisk, LinkOf, Decode;
    var d, g := PartitionedDisk(), Geo();
    var slots := ClusterSlots(d, g, 2);
    Chains();
    DirectorySlots();
    SlotDecodes();
    assert Visited(d, g, 2, 68) == [2];
    assert ChainSlots(d, g, [2]) == slots;
    TwoSlots(slots, ReadmeEntry());
  }

  lemma SlotDecodes()
    ensures Decode(ReadmeSlot()) == Some(ReadmeEntry()) && ReadmeSlot()[0] != 0
  {
    hide EncodeSlot, EncodeName, Decode;
    SlotRoundTrip(README, TXT, 0x20, Zeros(8), Zeros(4), 3, FILE_SIZE);
    EncodedFields(EncodeName(README, TXT), 0x20, Zeros(8), Zeros(4), 3, FILE_SIZE);
    EncodedName(ReadmeSlot(), README, TXT);
  }

  /** A live slot before an end mark. */
  lemma TwoSlots(slots: seq<Raw>, e: Dirent)
    requires |slots| >= 2 && Decode(slots[0]) == Some(e) && slots[0][0] != 0 && slots[1][0] == 0
    ensures Entries(slots) == [e] && Ended(slots)
  {
    hide Decode;
    assert slots[1..][0] == slots[1];
    assert Entries(slots[1..]) == [];
  }

  // ------------------------------------------------------------- path and file

  lemma NameFound()
    ensures FirstNamed([ReadmeEntry()], UpperAll(LOWER_NAME)) == Some(ReadmeEntry())
    ensures !SameName(UpperAll(LOWER_NAME), DOT_NAME)
  {
    var upper := README + [DOT] + TXT;
    assert UpperAll(LOWER_NAME) == upper;
    CTextIs(upper);
    CTextIs(DOT_NAME);
    hide CText;
  }

  lemma CTextIs(s: seq<Byte>)
    requires 0 !in s
    ensures CText(s) == s
  {
  }

  lemma PathParts(c: Byte)
    requires c == 0x2F || c == 0x5C
    ensures Parts([c] + LOWER_NAME) == [Name(UpperAll(LOWER_NAME))]
  {
    JoinedSplits([LOWER_NAME], c);
    assert Joined([LOWER_NAME], c) == [c] + LOWER_NAME;
    hide Parts;
  }

  /**
   "/readme.txt" finds the entry README.TXT with its size and first cluster, and
   reading it succeeds; byte 0 comes from the partition's fourth sector and byte
   599 from its fifth.
   */
  lemma ReadmeIsRead(fails: nat -> bool)
    requires forall n :: !fails(n)
    ensures var d, g := PartitionedDisk(), Geo();
            && Mounted(d, fails, 0) == Some(g) && g.volumeStart == 2048
            && FatLookup.Lookup(d, g, [0x2F] + LOWER_NAME) == Found(ReadmeEntry())
            && ReadStatus(d, g, 3, 600) == OK
            && HasByte(d, g, 3, 0) && HasByte(d, g, 3, 599)
            && FileByte(d, g, 3, 10) == d.data(2051, 10) == 10 && FileByte(d, g, 3, 599) == d.data(2052, 87) == 0x41
  {
    PartitionedDiskMounts(fails);
    ReadmeFound();
    ReadmeBytes();
    hide Mounted, FatLookup.Lookup, ReadStatus, FileByte, HasByte, PartitionedDisk;
  }

  lemma ReadmeFound()
    ensures FatLookup.Lookup(PartitionedDisk(), Geo(), [0x2F] + LOWER_NAME) == Found(ReadmeEntry())
  {
    hide Parts, ListDirectory, PartitionedDisk, SameName, UpperAll;
    PathParts(0x2F);
    RootLists();
    NameFound();
  }

  lemma ReadmeBytes()
    ensures var d, g := PartitionedDisk(), Geo();
            && ReadStatus(d, g, 3, 600) == OK
            && HasByte(d, g, 3, 10) && HasByte(d, g, 3, 0) && HasByte(d, g, 3, 599)
            && FileByte(d, g, 3, 10) == d.data(2051, 10) == 10 && FileByte(d, g, 3, 599) == d.data(2052, 87) == 0x41
  {
    hide DiskData, Follow, PartitionedDisk, FileByte, HasByte, ReadStatus, ClusterBytes;
    ReadmeByte(0);
    ReadmeByte(10);
    ReadmeByte(599);
    ReadmeStatus();
    DataAt(2051, 10);
    DataAt(2052, 87);
    FileHere(10);
    FileHere(87);
  }

  lemma ReadmeStatus()
    ensures ClusterBytes(Geo()) == 512 && ReadStatus(PartitionedDisk(), Geo(), 3, 600) == OK
  {
    hide PartitionedDisk, HasByte, ReadStatus, ClusterBytes;
    var d, g := PartitionedDisk(), Geo();
    ReadmeByte(0);
    forall i: nat | i < 600 ensures HasByte(d, g, 3, i) {
      ReadmeByte(i);
    }
    ReadSucceedsIff(d, g, 3, 600);
  }

  lemma ReadmeByte(i: nat)
    requires i < 600
    ensures var d, g := PartitionedDisk(), Geo();
            && ClusterBytes(g) == 512 && HasByte(d, g, 3, i)
            && FileByte(d, g, 3, i) == if i < 512 then d.data(2051, i) else d.data(2052, i - 512)
  {
    hide Follow, PartitionedDisk;
    Chains();
    if i < 512 {
      DivModUnique(i, 512, 0, i);
    } else {
      DivModUnique(i, 512, 1, i - 512);
      DivModUnique(i - 512, 512, 0, i - 512);
    }
  }

  lemma FileHere(i: int)
    requires 0 <= i < 512
    ensures DiskData(2051, i) == i % 0x100 && DiskData(2052, i) == 0x41
  {
  }
}
