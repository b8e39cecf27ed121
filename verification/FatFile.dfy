/** File contents as a function of the chain, and when reading a file succeeds. */
module FatFile {
  import opened Options
  import opened Machine
  import opened Disk
  import opened FatFormat
  import opened FatChain
  import opened FatNames
  import opened FatDirectory
  import opened FatLookup

  /** The chain reaches the cluster that holds byte i. */
  predicate HasByte(d: Medium, g: Geometry, first: Word, i: nat)
    requires g.bytesPerSector != 0 && ClusterBytes(g) > 0
  {
    Follow(d, g, first, i / ClusterBytes(g)).Some?
  }

  /** Byte i of the file: follow i / clusterBytes links, then index into that cluster. */
  function FileByte(d: Medium, g: Geometry, first: Word, i: nat): Byte
    requires g.bytesPerSector != 0 && ClusterBytes(g) > 0 && HasByte(d, g, first, i)
  {
    var cluster := Follow(d, g, first, i / ClusterBytes(g)).value;
    DivParts(i, ClusterBytes(g));
    var within := i % ClusterBytes(g);
    DivParts(within, g.bytesPerSector);
    VolumeByte(d, g, DataSector(g, cluster, within / g.bytesPerSector), within % g.bytesPerSector)
  }

  /** The position of byte o of sector k of the n-th cluster. */
  lemma Position(g: Geometry, n: nat, k: nat, o: nat)
    requires g.bytesPerSector != 0 && k < g.sectorsPerCluster && o < g.bytesPerSector
    ensures ClusterBytes(g) > 0
    ensures var i := n * ClusterBytes(g) + k * g.bytesPerSector + o;
            && i / ClusterBytes(g) == n
            && i % ClusterBytes(g) / g.bytesPerSector == k && i % ClusterBytes(g) % g.bytesPerSector == o
  {
    var cb, bps := ClusterBytes(g), g.bytesPerSector;
    MulBelow(k, g.sectorsPerCluster, bps);
    MulMono(0, k, bps);
    var within := k * bps + o;
    DivModUnique(n * cb + within, cb, n, within) by {
      assert n * cb == cb * n;
    }
    DivModUnique(within, bps, k, o) by {
      assert k * bps == bps * k;
    }
  }

  /** Clusters a file of size bytes occupies. */
  function ClustersNeeded(g: Geometry, size: Word): nat
    requires ClusterBytes(g) > 0
  {
    (size + ClusterBytes(g) - 1) / ClusterBytes(g)
  }

  /**
   What reading size > 0 bytes from a first cluster gives without read
   failures: the walk stops at a bad or missing link, or when it has visited
   as many clusters as the volume has and still needs more.
   */
  function ReadStatus(d: Medium, g: Geometry, first: Word, size: Word): Status
    requires g.bytesPerSector != 0 && ClusterBytes(g) > 0 && size > 0
  {
    var need := ClustersNeeded(g, size);
    if !ValidCluster(g, first) then EBADFS
    else if need > g.clusterCount then
      if Follow(d, g, first, g.clusterCount).Some? then ELOOP else EBADFS
    else if need >= 1 && Follow(d, g, first, need - 1) == None then EBADFS
    else OK
  }

  lemma NeedBounds(g: Geometry, size: Word)
    requires ClusterBytes(g) > 0 && size > 0
    ensures var need := ClustersNeeded(g, size);
            need >= 1 && (need - 1) * ClusterBytes(g) < size <= need * ClusterBytes(g)
  {
    var cb := ClusterBytes(g);
    var x := size + cb - 1;
    DivParts(x, cb);
    var q := x / cb;
    assert cb * q == q * cb && (q - 1) * cb == q * cb - cb;
  }

  ghost predicate HasBytes(d: Medium, g: Geometry, first: Word, size: Word)
    requires g.bytesPerSector != 0 && ClusterBytes(g) > 0
  {
    forall i: nat :: i < size ==> HasByte(d, g, first, i)
  }

  /** All bytes are there exactly when the last needed cluster is. */
  lemma BytesMeanClusters(d: Medium, g: Geometry, first: Word, size: Word)
    requires g.bytesPerSector != 0 && ClusterBytes(g) > 0 && size > 0
    ensures HasBytes(d, g, first, size) <==> Follow(d, g, first, ClustersNeeded(g, size) - 1).Some?
    ensures HasBytes(d, g, first, size) ==> ValidCluster(g, first)
    ensures ClustersNeeded(g, size) >= 1
  {
    var cb, need := ClusterBytes(g), ClustersNeeded(g, size);
    NeedBounds(g, size);
    LastByte(g, size);
    hide Follow, ClusterBytes, ClustersNeeded;
    if HasBytes(d, g, first, size) {
      assert HasByte(d, g, first, size - 1);
      FirstByte(d, g, first, size);
    }
    if Follow(d, g, first, need - 1).Some? {
      assert HasByte(d, g, first, size - 1);
      forall i: nat | i < size ensures HasByte(d, g, first, i) {
        EarlierByte(d, g, first, i, size - 1);
      }
    }
  }

  lemma EarlierByte(d: Medium, g: Geometry, first: Word, i: nat, last: nat)
    requires g.bytesPerSector != 0 && ClusterBytes(g) > 0 && i <= last && HasByte(d, g, first, last)
    ensures HasByte(d, g, first, i)
  {
    hide Follow, ClusterBytes;
    EarlierCluster(i, last, ClusterBytes(g));
    var k, n := i / ClusterBytes(g), last / ClusterBytes(g);
    FollowPrefix(d, g, first, k, n);
  }

  /** A size needs no more clusters than the volume has exactly when it is at most the volume's capacity. */
  lemma NeedFits(g: Geometry, size: Word)
    requires ClusterBytes(g) > 0 && size > 0
    ensures ClustersNeeded(g, size) <= g.clusterCount <==> size <= g.clusterCount * ClusterBytes(g)
  {
    var cb, need := ClusterBytes(g), ClustersNeeded(g, size);
    NeedBounds(g, size);
    if need > g.clusterCount {
      MulMono(g.clusterCount, need - 1, cb);
    } else {
      MulMono(need, g.clusterCount, cb);
    }
  }

  /** Reading succeeds exactly when the chain has the clusters the size needs and the volume has as many. */
  lemma ReadSucceedsIff(d: Medium, g: Geometry, first: Word, size: Word)
    requires g.bytesPerSector != 0 && ClusterBytes(g) > 0 && size > 0
    ensures ReadStatus(d, g, first, size) == OK <==>
            size <= g.clusterCount * ClusterBytes(g) && HasBytes(d, g, first, size)
  {
    NeedFits(g, size);
    BytesMeanClusters(d, g, first, size);
    hide HasBytes, ClusterBytes, ClustersNeeded;
    if Follow(d, g, first, ClustersNeeded(g, size) - 1).Some? {
      FollowPrefix(d, g, first, 0, ClustersNeeded(g, size) - 1);
    }
  }

  lemma FirstByte(d: Medium, g: Geometry, first: Word, size: Word)
    requires g.bytesPerSector != 0 && ClusterBytes(g) > 0 && size > 0
    requires HasBytes(d, g, first, size)
    ensures ValidCluster(g, first)
  {
    DivModUnique(0, ClusterBytes(g), 0, 0);
    assert HasByte(d, g, first, 0);
  }

  lemma LastByte(g: Geometry, size: Word)
    requires ClusterBytes(g) > 0 && size > 0
    ensures (size - 1) / ClusterBytes(g) == ClustersNeeded(g, size) - 1
  {
    var cb, need := ClusterBytes(g), ClustersNeeded(g, size);
    NeedBounds(g, size);
    assert cb * (need - 1) == (need - 1) * cb && need * cb == (need - 1) * cb + cb;
    DivModUnique(size - 1, cb, need - 1, size - 1 - cb * (need - 1));
  }

  lemma EarlierCluster(i: nat, j: nat, n: nat)
    requires n > 0 && i <= j
    ensures i / n <= j / n
  {
    DivParts(i, n);
    DivParts(j, n);
    var p, q := i / n, j / n;
    assert (q + 1) * n == n * q + n && p * n == n * p;
    if p > q {
      MulMono(q + 1, p, n);
    }
  }

  /** An acyclic chain that is long enough for the size is always read. */
  lemma AcyclicChainsAreRead(d: Medium, g: Geometry, first: Word, size: Word)
    requires g.bytesPerSector != 0 && ClusterBytes(g) > 0 && size > 0
    requires !Cyclic(d, g, first) && HasBytes(d, g, first, size)
    ensures ReadStatus(d, g, first, size) == OK
  {
    LoopGuardIsExact(d, g, first);
    BytesMeanClusters(d, g, first, size);
    hide HasBytes, ClusterBytes, Cyclic;
    if ClustersNeeded(g, size) > g.clusterCount {
      FollowPrefix(d, g, first, g.clusterCount, ClustersNeeded(g, size) - 1);
    }
  }

  /** ELOOP comes only from a cyclic chain and a size no chain of this volume can hold. */
  lemma LoopMeansTooBig(d: Medium, g: Geometry, first: Word, size: Word)
    requires g.bytesPerSector != 0 && ClusterBytes(g) > 0 && size > 0
    ensures ReadStatus(d, g, first, size) == ELOOP <==>
            Cyclic(d, g, first) && size > g.clusterCount * ClusterBytes(g)
  {
    NeedFits(g, size);
    LoopGuardIsExact(d, g, first);
    hide ClusterBytes, ClustersNeeded, Cyclic;
    if Cyclic(d, g, first) {
      assert Follow(d, g, first, 0).Some?;
    }
  }

  /** A cyclic chain is read without complaint as long as the size fits the volume. */
  lemma CyclicChainsAreReadToo(d: Medium, g: Geometry, first: Word, size: Word)
    requires g.bytesPerSector != 0 && ClusterBytes(g) > 0 && size > 0
    requires Cyclic(d, g, first) && size <= g.clusterCount * ClusterBytes(g)
    ensures ReadStatus(d, g, first, size) == OK
  {
    LoopGuardIsExact(d, g, first);
    ReadSucceedsIff(d, g, first, size);
    BytesMeanClusters(d, g, first, size);
    hide ClusterBytes, ClustersNeeded, Cyclic, HasBytes;
    assert Follow(d, g, first, ClustersNeeded(g, size) - 1).Some?;
  }

  // ------------------------------------------------------ copying in order

  /** These are the first bytes of the file. */
  ghost predicate Delivered(d: Medium, g: Geometry, first: Word, bytes: seq<Byte>)
    requires g.bytesPerSector != 0 && ClusterBytes(g) > 0
  {
    forall i: nat :: i < |bytes| ==> HasByte(d, g, first, i) && bytes[i] == FileByte(d, g, first, i)
  }

  /** The bytes of sector k of the n-th cluster come next after those of all sectors before it. */
  lemma DeliverSector(d: Medium, g: Geometry, first: Word, bytes: seq<Byte>, n: nat, k: nat, cluster: Word, amount: nat)
    requires g.bytesPerSector == d.sectorSize != 0 && k < g.sectorsPerCluster && amount <= g.bytesPerSector
    requires ClusterBytes(g) > 0
    requires Delivered(d, g, first, bytes) && |bytes| == n * ClusterBytes(g) + k * g.bytesPerSector
    requires Follow(d, g, first, n) == Some(cluster)
    ensures Delivered(d, g, first, bytes + SectorBytes(d, g.volumeStart + DataSector(g, cluster, k))[..amount])
  {
    hide Follow, ClusterBytes, DataSector;
    var sector := SectorBytes(d, g.volumeStart + DataSector(g, cluster, k));
    var more := bytes + sector[..amount];
    forall i: nat | i < |more| ensures HasByte(d, g, first, i) && more[i] == FileByte(d, g, first, i) {
      if i < |bytes| {
        assert more[i] == bytes[i];
      } else {
        Position(g, n, k, i - |bytes|);
        assert more[i] == sector[i - |bytes|];
      }
    }
  }

  /** All clusters of the volume were visited and more bytes are wanted. */
  lemma StopsInLoop(d: Medium, g: Geometry, first: Word, size: Word)
    requires g.bytesPerSector != 0 && ClusterBytes(g) > 0 && size > g.clusterCount * ClusterBytes(g)
    requires size > 0 && Follow(d, g, first, g.clusterCount).Some?
    ensures ReadStatus(d, g, first, size) == ELOOP
  {
    hide ClusterBytes;
    NeedFits(g, size);
    FollowPrefix(d, g, first, 0, g.clusterCount);
  }

  /** The chain ends after n + 1 clusters and more bytes are wanted. */
  lemma StopsAtLink(d: Medium, g: Geometry, first: Word, size: Word, n: nat)
    requires g.bytesPerSector != 0 && ClusterBytes(g) > 0 && size > (n + 1) * ClusterBytes(g)
    requires size > 0 && n < g.clusterCount && Follow(d, g, first, n + 1) == None
    ensures ReadStatus(d, g, first, size) == EBADFS
  {
    NeedBounds(g, size);
    var need := ClustersNeeded(g, size);
    if need <= n + 1 {
      MulMono(need, n + 1, ClusterBytes(g));
    }
    hide ClusterBytes, ClustersNeeded, Follow, ValidCluster;
    if need > g.clusterCount {
      if Follow(d, g, first, g.clusterCount).Some? {
        FollowPrefix(d, g, first, n + 1, g.clusterCount);
      }
    } else if Follow(d, g, first, need - 1).Some? {
      FollowPrefix(d, g, first, n + 1, need - 1);
    }
  }

  /** All bytes were delivered within as many clusters as the volume has. */
  lemma StopsDone(d: Medium, g: Geometry, first: Word, bytes: seq<Byte>, visited: nat)
    requires g.bytesPerSector != 0 && ClusterBytes(g) > 0 && 0 < |bytes| <= visited * ClusterBytes(g)
    requires visited <= g.clusterCount && |bytes| < 0x1_0000_0000 && Delivered(d, g, first, bytes)
    ensures ReadStatus(d, g, first, |bytes|) == OK
  {
    MulMono(visited, g.clusterCount, ClusterBytes(g));
    ReadSucceedsIff(d, g, first, |bytes|);
    hide ClusterBytes, ReadStatus;
  }

  // -------------------------------------------------------- the whole call

  /** The statuses of reading the file an entry describes, on its own attributes, size and chain. */
  ghost predicate ReadMeans(d: Medium, g: Geometry, e: Dirent, hasBuffer: bool, capacity: Word, status: Status)
    requires g.bytesPerSector != 0 && ClusterBytes(g) > 0
  {
    var directory, fits := e.attributes / 16 % 2 == 1, (e.size == 0 || hasBuffer) && e.size <= capacity;
    && (status == EISDIR <==> directory)
    && (status == EINVAL <==> !directory && e.size > 0 && !hasBuffer)
    && (status == ENOSPC <==> !directory && hasBuffer && e.size > capacity)
    && (status == OK <==> !directory && fits && e.size <= g.clusterCount * ClusterBytes(g)
                          && HasBytes(d, g, e.firstCluster, e.size))
    && (status == ELOOP <==> !directory && fits && e.size > g.clusterCount * ClusterBytes(g)
                             && Cyclic(d, g, e.firstCluster))
    && status in {OK, EISDIR, EINVAL, ENOSPC, ELOOP, EBADFS}
  }

  /** How much of the buffer reading may write: the file's size if it is a file that fits. */
  function Extent(found: Outcome, capacity: Word): nat {
    if found.Found? && !IsDirectory(found.entry) && found.entry.size <= capacity then found.entry.size else 0
  }

  lemma ReadingMeans(d: Medium, g: Geometry, e: Dirent, capacity: Word)
    requires g.bytesPerSector != 0 && ClusterBytes(g) > 0
    requires !IsDirectory(e) && 0 < e.size <= capacity
    ensures ReadMeans(d, g, e, true, capacity, ReadStatus(d, g, e.firstCluster, e.size))
  {
    DirectoryBit(e);
    ReadSucceedsIff(d, g, e.firstCluster, e.size);
    LoopMeansTooBig(d, g, e.firstCluster, e.size);
    StatusOfReading(d, g, e.firstCluster, e.size);
    hide ReadStatus, HasBytes, ClusterBytes, Cyclic, IsDirectory;
  }

  lemma StatusOfReading(d: Medium, g: Geometry, first: Word, size: Word)
    requires g.bytesPerSector != 0 && ClusterBytes(g) > 0 && size > 0
    ensures ReadStatus(d, g, first, size) in {OK, EBADFS, ELOOP}
  {
  }

  /** Everything that ends before the chain is looked at. */
  lemma EarlyMeans(d: Medium, g: Geometry, e: Dirent, hasBuffer: bool, capacity: Word)
    requires g.bytesPerSector != 0 && ClusterBytes(g) > 0
    ensures IsDirectory(e) ==> ReadMeans(d, g, e, hasBuffer, capacity, EISDIR)
    ensures !IsDirectory(e) && e.size != 0 && !hasBuffer ==> ReadMeans(d, g, e, hasBuffer, capacity, EINVAL)
    ensures !IsDirectory(e) && hasBuffer && capacity < e.size ==> ReadMeans(d, g, e, hasBuffer, capacity, ENOSPC)
    ensures !IsDirectory(e) && e.size == 0 ==> ReadMeans(d, g, e, hasBuffer, capacity, OK)
  {
    DirectoryBit(e);
    MulMono(0, g.clusterCount, ClusterBytes(g));
    hide ClusterBytes, Cyclic, IsDirectory, HasByte;
  }

  // ------------------------------------------------------- flat addresses

  /** Byte i of a file, on the disk as one array: in the data area, at its cluster's place. */
  lemma FileIsArray(d: Medium, g: Geometry, first: Word, i: nat)
    requires GeometryOk(d, g) && g.bytesPerSector != 0 && ClusterBytes(g) > 0 && HasByte(d, g, first, i)
    ensures var cluster := Follow(d, g, first, i / ClusterBytes(g)).value;
            var at := (g.volumeStart + g.dataStart) * d.sectorSize + (cluster - 2) * ClusterBytes(g)
                      + i % ClusterBytes(g);
            at >= 0 && FileByte(d, g, first, i) == DiskByte(d, at)
  {
    hide Follow, DiskByte, GeometryOk;
    var cb, bps, spc := ClusterBytes(g), g.bytesPerSector, g.sectorsPerCluster;
    var cluster, within := Follow(d, g, first, i / cb).value, i % cb;
    SameSize(d, g);
    DivParts(i, cb);
    DivParts(within, bps);
    var k, o := within / bps, within % bps;
    var c, s := cluster - 2, g.volumeStart + g.dataStart;
    MulMono(0, c, spc);
    SumOfSectors(s, c, spc, k, bps);
    FlatByte(d, s + c * spc + k, o);
  }

  lemma SameSize(d: Medium, g: Geometry)
    requires GeometryOk(d, g)
    ensures g.bytesPerSector == d.sectorSize
  {
  }

  lemma SumOfSectors(s: nat, c: nat, spc: nat, k: nat, bps: nat)
    ensures (s + c * spc + k) * bps == s * bps + c * (spc * bps) + bps * k
  {
    assert c * spc * bps == c * (spc * bps);
  }

  // ------------------------------------------- directories, as files of slots

  /** Slot k of n groups of per slots is slot k % per of group k / per. */
  lemma GroupOf(k: nat, n: nat, per: nat)
    requires per > 0 && k < n * per
    ensures 0 <= k / per < n && 0 <= k % per < per && k == per * (k / per) + k % per
  {
    DivParts(k, per);
    DivBelow(k, per, n);
  }

  lemma {:induction false} SectorsSlotByte(d: Medium, g: Geometry, cluster: Word, n: nat, j: nat, b: nat)
    requires g.bytesPerSector == d.sectorSize && d.sectorSize % 32 == 0 && d.sectorSize > 0 && b < 32
    ensures |SectorsSlots(d, g, cluster, n)| == n * (d.sectorSize / 32)
    ensures var per := d.sectorSize / 32;
            j < n * per ==>
              SectorsSlots(d, g, cluster, n)[j][b]
              == VolumeByte(d, g, DataSector(g, cluster, j / per), 32 * (j % per) + b)
  {
    hide DataSector, SectorSlots, SectorBytes;
    var per := d.sectorSize / 32;
    if n > 0 {
      var sector := DataSector(g, cluster, n - 1);
      SectorsSlotByte(d, g, cluster, n - 1, j, b);
      OneMoreGroup(n - 1, per);
      SlotByte(d, g.volumeStart + sector, 0, 0);
      if (n - 1) * per <= j < n * per {
        LastGroup(j, n - 1, per);
        SlotByte(d, g.volumeStart + sector, j % per, b);
        assert SectorsSlots(d, g, cluster, n)[j] == SectorSlots(SectorBytes(d, g.volumeStart + sector))[j % per];
      }
    }
  }

  lemma SlotByte(d: Medium, sector: int, t: nat, b: nat)
    requires d.sectorSize % 32 == 0 && t < d.sectorSize / 32 && b < 32
    ensures |SectorSlots(SectorBytes(d, sector))| == d.sectorSize / 32
    ensures SectorSlots(SectorBytes(d, sector))[t][b] == d.data(sector, 32 * t + b)
  {
  }

  lemma LastGroup(j: nat, n: nat, per: nat)
    requires n * per <= j < n * per + per
    ensures j / per == n && j % per == j - n * per
  {
    assert n * per == per * n;
    DivModUnique(j, per, n, j - n * per);
  }

  lemma {:induction false} ChainSlot(d: Medium, g: Geometry, clusters: seq<Word>, k: nat)
    requires g.bytesPerSector == d.sectorSize && d.sectorSize % 32 == 0 && d.sectorSize > 0 && g.sectorsPerCluster > 0
    ensures var per := g.sectorsPerCluster * (d.sectorSize / 32);
            && per > 0 && |ChainSlots(d, g, clusters)| == |clusters| * per
            && (k < |clusters| * per ==>
                  && 0 <= k / per < |clusters| && |ClusterSlots(d, g, clusters[k / per])| == per
                  && ChainSlots(d, g, clusters)[k] == ClusterSlots(d, g, clusters[k / per])[k % per])
  {
    hide ClusterSlots, ChainSlots;
    var per := g.sectorsPerCluster * (d.sectorSize / 32);
    MulMono(1, g.sectorsPerCluster, d.sectorSize / 32);
    ChainFirst(d, g, clusters);
    if clusters != [] {
      var here, rest := ClusterSlots(d, g, clusters[0]), clusters[1..];
      ClusterLength(d, g, clusters[0]);
      OneMoreGroup(|rest|, per);
      if k < per {
        ChainSlot(d, g, rest, 0);
        DivModUnique(k, per, 0, k);
      } else {
        ChainSlot(d, g, rest, k - per);
        NextGroup(k, per);
        if k < |clusters| * per {
          assert clusters[k / per] == rest[(k - per) / per];
        }
      }
    }
  }

  lemma ChainFirst(d: Medium, g: Geometry, clusters: seq<Word>)
    ensures ChainSlots(d, g, clusters)
            == if clusters == [] then [] else ClusterSlots(d, g, clusters[0]) + ChainSlots(d, g, clusters[1..])
  {
  }

  lemma ClusterLength(d: Medium, g: Geometry, cluster: Word)
    requires g.bytesPerSector == d.sectorSize && d.sectorSize % 32 == 0 && d.sectorSize > 0
    ensures |ClusterSlots(d, g, cluster)| == g.sectorsPerCluster * (d.sectorSize / 32)
  {
    SectorsSlotByte(d, g, cluster, g.sectorsPerCluster, 0, 0);
    hide SectorsSlots;
  }

  lemma OneMoreGroup(n: nat, per: nat)
    ensures (n + 1) * per == per + n * per
  {
  }

  lemma NextGroup(k: nat, per: nat)
    requires 0 < per <= k
    ensures k / per == (k - per) / per + 1 && k % per == (k - per) % per && (k - per) / per >= 0
  {
    DivParts(k - per, per);
    var q, r := (k - per) / per, (k - per) % per;
    assert per * (q + 1) == per * q + per;
    DivModUnique(k, per, q + 1, r);
  }

  /**
   The slots a listing looks at are the directory's chain read as a file: slot k
   is bytes 32 * k to 32 * k + 31.
   */
  lemma DirectoryIsFile(d: Medium, g: Geometry, first: Word, budget: nat, k: nat, b: nat)
    requires GeometryOk(d, g) && d.sectorSize % 32 == 0 && ValidCluster(g, first) && b < 32
    requires k < |ChainSlots(d, g, Visited(d, g, first, budget))|
    ensures g.bytesPerSector != 0 && ClusterBytes(g) > 0 && HasByte(d, g, first, 32 * k + b)
    ensures ChainSlots(d, g, Visited(d, g, first, budget))[k][b] == FileByte(d, g, first, 32 * k + b)
  {
    hide Follow, Visited, DataSector, ChainSlots, ClusterSlots, SectorsSlots;
    var clusters := Visited(d, g, first, budget);
    var perSector := d.sectorSize / 32;
    var per := g.sectorsPerCluster * perSector;
    MulMono(1, g.sectorsPerCluster, g.bytesPerSector);
    VisitedFollows(d, g, first, budget);
    ChainSlot(d, g, clusters, k);
    GroupOf(k, |clusters|, per);
    var n, j := k / per, k % per;
    GroupOf(j, g.sectorsPerCluster, perSector);
    ClusterSlotByte(d, g, clusters[n], j, b);
    var s, t := j / perSector, j % perSector;
    SlotPlace(g.sectorsPerCluster, perSector, n, s, t, b);
    Position(g, n, s, 32 * t + b);
    hide ClusterBytes;
  }

  lemma ClusterSlotByte(d: Medium, g: Geometry, cluster: Word, j: nat, b: nat)
    requires g.bytesPerSector == d.sectorSize && d.sectorSize % 32 == 0 && d.sectorSize > 0 && b < 32
    requires j < |ClusterSlots(d, g, cluster)|
    ensures var per := d.sectorSize / 32;
            && j < g.sectorsPerCluster * per
            && ClusterSlots(d, g, cluster)[j][b]
               == VolumeByte(d, g, DataSector(g, cluster, j / per), 32 * (j % per) + b)
  {
    SectorsSlotByte(d, g, cluster, g.sectorsPerCluster, j, b);
    hide SectorsSlots, DataSector;
  }

  lemma SlotPlace(spc: nat, perSector: nat, n: nat, s: nat, t: nat, b: nat)
    ensures 32 * (spc * perSector * n + (perSector * s + t)) + b
            == n * (spc * (32 * perSector)) + s * (32 * perSector) + (32 * t + b)
  {
    assert spc * (32 * perSector) == 32 * (spc * perSector);
    assert n * (32 * (spc * perSector)) == 32 * (spc * perSector * n);
    assert s * (32 * perSector) == 32 * (perSector * s);
  }
}
