/** The FAT32 reader: one volume, one sector buffer for tables and data alike. */
module Fat32 {
  import opened Options
  import opened Machine
  import opened Disk
  import opened FatFormat
  import opened FatChain
  import opened FatNames
  import opened FatPath
  import opened FatDirectory
  import opened FatScan
  import opened FatLookup
  import opened FatFile
  import opened FatMount

  // --------------------------------------------------------- listing, pieces

  /** The callback saw the first entries of the directory the path leads to. */
  ghost predicate SawListed<S>(d: Medium, g: Geometry, path: Option<CString>, cb: (S, Dirent) -> (S, bool), s0: S, s: S)
    requires g.bytesPerSector != 0
  {
    var found := FatLookup.Lookup(d, g, if path == None then [SLASH] else path.value);
    found.Found? && SawPrefix(FatDirectory.ListDirectory(d, g, found.entry.firstCluster).entries, cb, s0, s)
  }

  lemma NothingFolded<S>(cb: (S, Dirent) -> (S, bool), s0: S)
    ensures FoldUntil([], cb, s0) == (s0, false)
  {
  }

  /** One more stretch of a listing was seen to its end. */
  lemma SeenMore<S>(before: seq<Dirent>, seen: seq<Dirent>, rest: seq<Dirent>, cb: (S, Dirent) -> (S, bool), s0: S,
                    s1: S, s: S)
    requires FoldUntil(before, cb, s0) == (s1, false) && FoldUntil(seen, cb, s1) == (s, false)
    ensures FoldUntil(before + seen, cb, s0) == (s, false)
    ensures before + (seen + rest) == before + seen + rest
  {
    FoldAppend(before, seen, cb, s0);
  }

  // -------------------------------------------------------- reading, pieces

  lemma DeliverNothing(d: Medium, g: Geometry, first: Word)
    requires g.bytesPerSector != 0 && ClusterBytes(g) > 0
    ensures Delivered(d, g, first, [])
  {
  }

  lemma NoFirstCluster(d: Medium, g: Geometry, first: Word, size: Word)
    requires g.bytesPerSector != 0 && ClusterBytes(g) > 0 && size > 0 && !ValidCluster(g, first)
    ensures ReadStatus(d, g, first, size) == EBADFS
  {
  }

  lemma ChainStarts(d: Medium, g: Geometry, first: Word)
    requires g.bytesPerSector != 0 && ValidCluster(g, first)
    ensures Follow(d, g, first, 0) == Some(first)
  {
  }

  lemma ClusterMeans(g: Geometry, n: nat)
    ensures (n + 1) * ClusterBytes(g) == n * ClusterBytes(g) + g.sectorsPerCluster * g.bytesPerSector
  {
  }

  lemma NextSector(k: nat, n: nat)
    ensures (k + 1) * n == k * n + n
  {
  }

  lemma SameSectorSize(d: Medium, g: Geometry)
    requires GeometryOk(d, g)
    ensures g.bytesPerSector == d.sectorSize <= MAX_SECTOR_SIZE
  {
  }

  /** One link further along the chain. */
  lemma LinkMeans(d: Medium, g: Geometry, first: Word, n: nat, cluster: Word)
    requires g.bytesPerSector != 0 && Follow(d, g, first, n) == Some(cluster)
    ensures Follow(d, g, first, n + 1) == match LinkOf(d, g, cluster) case Next(x) => Some(x) case _ => None
  {
    hide LinkOf;
  }

  // ----------------------------------------------------- lookup, part by part

  lemma ResolveOverlong(d: Medium, g: Geometry, directory: Word)
    requires g.bytesPerSector != 0
    ensures Resolve(d, g, directory, [Overlong]) == Failed(EINVAL)
  {
  }

  lemma ResolveNothing(d: Medium, g: Geometry, directory: Word)
    requires g.bytesPerSector != 0
    ensures Resolve(d, g, directory, [])
            == if directory == g.rootCluster then Found(RootEntry(directory)) else Failed(ENOTFOUND)
  {
  }

  lemma ResolveName(d: Medium, g: Geometry, directory: Word, name: seq<Byte>, rest: seq<Part>)
    requires g.bytesPerSector != 0
    ensures SameName(name, DOT_NAME) ==> Resolve(d, g, directory, [Name(name)] + rest) == Resolve(d, g, directory, rest)
    ensures var found := Search(FatDirectory.ListDirectory(d, g, directory), name);
            !SameName(name, DOT_NAME) ==>
              Resolve(d, g, directory, [Name(name)] + rest)
              == if found.Failed? || rest == [] then found
                 else if !IsDirectory(found.entry) then Failed(ENOTDIR)
                 else if !ValidCluster(g, found.entry.firstCluster) then Failed(EBADFS)
                 else Resolve(d, g, found.entry.firstCluster, rest)
  {
    hide Search, FatDirectory.ListDirectory, SameName, IsDirectory;
    assert ([Name(name)] + rest)[1..] == rest;
  }

  /** The sector number of a data sector, computed in 32-bit steps that do not wrap. */
  lemma NoWrap(g: Geometry, cluster: Word, k: Word)
    requires 2 <= cluster && 0 <= (cluster - 2) * g.sectorsPerCluster < 0x1_0000_0000
    requires 0 <= DataSector(g, cluster, k) < 0x1_0000_0000
    ensures Wrap32(g.dataStart + Wrap32(Wrap32(cluster - 2) * g.sectorsPerCluster) + k) == DataSector(g, cluster, k)
  {
    WrapSmall(cluster - 2);
    WrapSmall((cluster - 2) * g.sectorsPerCluster);
    WrapSmall(DataSector(g, cluster, k));
  }

  /** Sectors of the volume are on the device and have 32-bit numbers. */
  lemma SectorPlace(d: Medium, g: Geometry, sector: Word)
    requires GeometryOk(d, g)
    ensures 0 < g.bytesPerSector == d.sectorSize <= MAX_SECTOR_SIZE
    ensures sector < DataEnd(g) ==>
              && g.volumeStart + sector < 0xffff_ffff && OnDevice(d, g.volumeStart + sector)
              && (d.sectorCount != 0 ==> g.volumeStart <= d.sectorCount && sector < d.sectorCount - g.volumeStart)
  {
    hide DataEnd;
  }

  /** The table sector of a cluster, computed without wrap, lies before the data. */
  lemma EntryPlace(d: Medium, g: Geometry, cluster: Word)
    requires GeometryOk(d, g) && ValidCluster(g, cluster)
    ensures g.bytesPerSector > 0 && Wrap32(cluster * 4) == 4 * cluster
    ensures 4 * cluster / g.bytesPerSector < g.fatSectors && 0 <= 4 * cluster % g.bytesPerSector <= g.bytesPerSector - 4
    ensures g.bytesPerSector <= MAX_SECTOR_SIZE
    ensures var sector := g.fatStart + 4 * cluster / g.bytesPerSector;
            0 <= sector < g.dataStart <= DataEnd(g) && Wrap32(sector) == sector
  {
    TableAddress(d, g, cluster);
    MulMono(0, g.clusterCount, g.sectorsPerCluster);
    DivParts(4 * cluster, g.bytesPerSector);
    WrapSmall(4 * cluster);
    WrapSmall(g.fatStart + 4 * cluster / g.bytesPerSector);
    hide Wrap32;
  }

  lemma Bounds(d: Medium, g: Geometry)
    requires GeometryOk(d, g)
    ensures g.bytesPerSector > 0 && g.sectorsPerCluster > 0 && ClusterBytes(g) > 0 && 0 < g.clusterCount < 0xffff_ffff
  {
    MulMono(1, g.sectorsPerCluster, g.bytesPerSector);
  }

  /** The entry of a cluster, read off its table sector. */
  lemma EntryInSector(d: Medium, g: Geometry, cluster: Word, bytes: seq<Byte>)
    requires GeometryOk(d, g) && ValidCluster(g, cluster)
    requires bytes == SectorBytes(d, g.volumeStart + (g.fatStart + 4 * cluster / g.bytesPerSector))
    ensures var k := 4 * cluster % g.bytesPerSector;
            && 0 <= k && k + 4 <= |bytes|
            && LE32(bytes[k], bytes[k + 1], bytes[k + 2], bytes[k + 3]) == TableEntry(d, g, cluster)
  {
    TableAddress(d, g, cluster);
  }

  // ------------------------------------------------------------- the class

  class Volume {
    var device: BlockDevice?
    var volumeStart: Word
    var bytesPerSector: Word
    var sectorsPerCluster: Word
    var reservedSectors: Word
    var fatStart: Word
    var fatSectors: Word
    var dataStart: Word
    var clusterCount: Word
    var rootCluster: Word
    const sectorBuffer: array<Byte>
    var mounted: bool

    constructor ()
      ensures Valid() && !mounted && fresh(sectorBuffer)
    {
      device, mounted := null, false;
      volumeStart, bytesPerSector, sectorsPerCluster, reservedSectors, fatStart := 0, 0, 0, 0, 0;
      fatSectors, dataStart, clusterCount, rootCluster := 0, 0, 0, 0;
      sectorBuffer := new Byte[MAX_SECTOR_SIZE](_ => 0);
    }

    function Geo(): Geometry
      reads this
    {
      Geometry(volumeStart, bytesPerSector, sectorsPerCluster, reservedSectors, fatStart, fatSectors, dataStart,
               clusterCount, rootCluster)
    }

    ghost predicate Valid()
      reads this
    {
      && sectorBuffer.Length == MAX_SECTOR_SIZE
      && (mounted ==> device != null && device.connected && GeometryOk(device.medium, Geo()))
    }

    /** One read failed; a scan reports EBADFS when it was of a table sector, and EIO otherwise. */
    ghost predicate ScanFailed(status: Status, before: nat)
      reads this, device
    {
      device != null && device.failures == before + 1 && status == if InTable() then EBADFS else EIO
    }

    /** The last failed read was of a sector before the data area. */
    ghost predicate InTable()
      reads this, device
    {
      device != null && device.failedSector < volumeStart + dataStart
    }

    /** One read failed; copying reports EIO whichever it was. */
    ghost predicate CopyFailed(status: Status, before: nat)
      reads this, device
    {
      device != null && device.failures == before + 1 && status == EIO
    }

    /** read_sector; on a mounted volume its range checks never reject a sector before the data end. */
    method ReadSector(sector: Word) returns (status: Status)
      requires Valid()
      modifies sectorBuffer, device
      ensures status == OK || status == EIO
      ensures mounted && sector < DataEnd(Geo()) ==>
                if status == OK then
                  && device.failures == old(device.failures)
                  && sectorBuffer[..bytesPerSector] == SectorBytes(device.medium, volumeStart + sector)
                else device.failures == old(device.failures) + 1 && device.failedSector == volumeStart + sector
    {
      hide GeometryOk, DataEnd, SectorBytes;
      if !mounted {
        return EIO;
      }
      SectorPlace(device.medium, Geo(), sector);
      var count := device.medium.sectorCount;
      if count != 0 && (volumeStart > count || sector >= Wrap32(count - volumeStart)) {
        return EIO;
      }
      if sector > 0xffff_ffff - volumeStart {
        return EIO;
      }
      var ok := device.ReadSector(Wrap32(volumeStart + sector), sectorBuffer);
      status := if ok then OK else EIO;
    }

    /** The first half of next_cluster: fetch the table entry of a valid cluster. */
    method FetchEntry(cluster: Word) returns (status: Status, entry: Word)
      requires Valid() && mounted && ValidCluster(Geo(), cluster)
      modifies sectorBuffer, device
      ensures if status == OK then
                device.failures == old(device.failures) && entry == TableEntry(device.medium, Geo(), cluster)
              else CopyFailed(status, old(device.failures)) && InTable()
    {
      hide GeometryOk, DataEnd, LE32, TableEntry, SectorBytes, Wrap32;
      EntryPlace(device.medium, Geo(), cluster);
      status, entry := EBADFS, 0;
      var offset := Wrap32(cluster * 4);
      if offset / bytesPerSector >= fatSectors {
        return;
      }
      var sector := Wrap32(fatStart + offset / bytesPerSector);
      var inSector := offset % bytesPerSector;
      if inSector + 4 > bytesPerSector {
        return;
      }
      status := ReadSector(sector);
      if status != OK {
        return EIO, 0;
      }
      entry := LE32(sectorBuffer[inSector], sectorBuffer[inSector + 1],
                    sectorBuffer[inSector + 2], sectorBuffer[inSector + 3]);
      EntryInSector(device.medium, Geo(), cluster, sectorBuffer[..bytesPerSector]);
    }

    /** Sector k of a cluster is read into the buffer. */
    method ReadDataSector(cluster: Word, k: Word) returns (status: Status)
      requires Valid() && mounted && ValidCluster(Geo(), cluster) && k < sectorsPerCluster
      modifies sectorBuffer, device
      ensures if status == OK then
                && device.failures == old(device.failures)
                && sectorBuffer[..bytesPerSector]
                  == SectorBytes(device.medium, volumeStart + DataSector(Geo(), cluster, k))
              else CopyFailed(status, old(device.failures)) && !InTable()
    {
      DataAddress(device.medium, Geo(), cluster, k);
      hide GeometryOk, DataEnd, SectorBytes;
      var sector := Wrap32(dataStart + Wrap32(Wrap32(cluster - 2) * sectorsPerCluster) + k);
      NoWrap(Geo(), cluster, k);
      hide DataSector, Wrap32, ValidCluster;
      status := ReadSector(sector);
    }

    /** fat32_list_directory's and lookup's scan: the callback sees the live entries in order until it stops. */
    method ScanDirectory<S>(first: Word, cb: (S, Dirent) -> (S, bool), s0: S) returns (status: Status, s: S)
      requires Valid() && mounted
      modifies sectorBuffer, device
      ensures device.failures != old(device.failures) ==>
                && ScanFailed(status, old(device.failures))
                && SawPrefix(FatDirectory.ListDirectory(device.medium, Geo(), first).entries, cb, s0, s)
      ensures device.failures == old(device.failures) ==>
                (status, s) == Scanned(FatDirectory.ListDirectory(device.medium, Geo(), first), cb, s0)
    {
      if !(first >= 2 && first - 2 < clusterCount) {
        return EBADFS, s0;
      }
      hide ListFrom, Scanned, GeometryOk, SawPrefix;
      status, s := ScanChain(first, cb, s0);
    }

    /** scan_directory's loop over the clusters of a chain. */
    method ScanChain<S>(first: Word, cb: (S, Dirent) -> (S, bool), s0: S) returns (status: Status, s: S)
      requires Valid() && mounted && ValidCluster(Geo(), first)
      modifies sectorBuffer, device
      ensures device.failures != old(device.failures) ==>
                && ScanFailed(status, old(device.failures))
                && SawPrefix(ListFrom(device.medium, Geo(), first, clusterCount).entries, cb, s0, s)
      ensures device.failures == old(device.failures) ==>
                (status, s) == Scanned(ListFrom(device.medium, Geo(), first, clusterCount), cb, s0)
    {
      hide ListFrom, Scanned, GeometryOk, Wrap32, SawPrefix, FoldUntil;
      s := s0;
      ghost var d, g := device.medium, Geo();
      Bounds(d, g);
      var cluster: Word, visited: Word := first, 0;
      ghost var before: seq<Dirent> := [];
      NothingFolded(cb, s0);
      assert before + ListFrom(d, g, first, clusterCount).entries == ListFrom(d, g, first, clusterCount).entries;
      while cluster >= 2 && cluster - 2 < clusterCount
        invariant 0 <= visited <= clusterCount && ValidCluster(g, cluster)
        invariant device.failures == old(device.failures)
        invariant Scanned(ListFrom(d, g, cluster, clusterCount - visited), cb, s)
                  == Scanned(ListFrom(d, g, first, clusterCount), cb, s0)
        invariant ListFrom(d, g, first, clusterCount).entries
                  == before + ListFrom(d, g, cluster, clusterCount - visited).entries
        invariant FoldUntil(before, cb, s0) == (s, false)
        decreases clusterCount - visited
      {
        WrapSmall(visited + 1);
        visited := Wrap32(visited + 1);
        if visited > clusterCount {
          OutOfBudget(d, g, cluster, cb, s);
          return ELOOP, s;
        }
        ghost var here, s1 := cluster, s;
        ghost var seen;
        var done;
        done, status, cluster, s, seen := ScanLink(cluster, clusterCount - visited + 1, cb, s);
        if device.failures != old(device.failures) {
          SeenFurther(before, ListFrom(d, g, here, clusterCount - visited + 1).entries, cb, s0, s1, s);
        }
        if done {
          return;
        }
        SeenMore(before, seen, ListFrom(d, g, cluster, clusterCount - visited).entries, cb, s0, s1, s);
        before := before + seen;
      }
      status := EBADFS;
    }

    /** One round of scan_directory's loop: a cluster and the link after it. */
    method ScanLink<S>(cluster: Word, ghost budget: nat, cb: (S, Dirent) -> (S, bool), s0: S)
      returns (done: bool, status: Status, next: Word, s: S, ghost seen: seq<Dirent>)
      requires Valid() && mounted && ValidCluster(Geo(), cluster) && budget > 0
      modifies sectorBuffer, device
      ensures device.failures == old(device.failures) ==>
                if done then (status, s) == Scanned(ListFrom(device.medium, Geo(), cluster, budget), cb, s0)
                else
                  && ValidCluster(Geo(), next)
                  && Scanned(ListFrom(device.medium, Geo(), next, budget - 1), cb, s)
                     == Scanned(ListFrom(device.medium, Geo(), cluster, budget), cb, s0)
                  && ListFrom(device.medium, Geo(), cluster, budget).entries
                     == seen + ListFrom(device.medium, Geo(), next, budget - 1).entries
                  && FoldUntil(seen, cb, s0) == (s, false)
      ensures device.failures != old(device.failures) ==>
                && done && ScanFailed(status, old(device.failures))
                && SawPrefix(ListFrom(device.medium, Geo(), cluster, budget).entries, cb, s0, s)
    {
      hide LinkOf, ClusterSlots, FoldUntil, ListFrom, Scanned, Progress, GeometryOk, SawPrefix, Entries;
      ghost var d, g := device.medium, Geo();
      Bounds(d, g);
      next, seen := cluster, Entries(ClusterSlots(d, g, cluster));
      done, status, s := ScanCluster(cluster, budget, cb, s0);
      if done {
        return;
      }
      ScanGoesOn(d, g, cluster, budget, cb, s0, s);
      ClusterComesFirst(d, g, cluster, budget, cb, s0, s);
      status, next := NextCluster(cluster);
      if status != OK {
        done, status := true, EBADFS;
        return;
      }
      done := next == END_OF_CHAIN;
    }

    /** One cluster of scan_directory; done when the scan is over. */
    method ScanCluster<S>(cluster: Word, ghost budget: nat, cb: (S, Dirent) -> (S, bool), s0: S)
      returns (done: bool, status: Status, s: S)
      requires Valid() && mounted && ValidCluster(Geo(), cluster) && budget > 0
      modifies sectorBuffer, device
      ensures device.failures == old(device.failures) ==>
                if done then (status, s) == Scanned(ListFrom(device.medium, Geo(), cluster, budget), cb, s0)
                else Progress(ClusterSlots(device.medium, Geo(), cluster), cb, s0, s)
      ensures device.failures != old(device.failures) ==>
                && done && ScanFailed(status, old(device.failures))
                && SawPrefix(ListFrom(device.medium, Geo(), cluster, budget).entries, cb, s0, s)
    {
      hide ListFrom, Scanned, Seen, Progress, ClusterSlots, GeometryOk, SectorBytes, DataSector, Decode, SawPrefix;
      done, status, s := false, OK, s0;
      ghost var d, g := device.medium, Geo();
      Bounds(d, g);
      SeenNothing(d, g, cluster, cb, s0);
      var k: Word := 0;
      while k < sectorsPerCluster
        invariant 0 <= k <= sectorsPerCluster
        invariant device.failures == old(device.failures)
        invariant Seen(d, g, cluster, k, 0, cb, s0, s)
      {
        var read := ReadDataSector(cluster, k);
        if read != OK {
          SeenIsPrefix(d, g, cluster, budget, k, cb, s0, s);
          return true, EIO, s;
        }
        done, status, s := ScanSector(cluster, budget, k, cb, s0, s);
        if done {
          return;
        }
        SeenSector(d, g, cluster, k, cb, s0, s);
        k := k + 1;
      }
      SeenCluster(d, g, cluster, cb, s0, s);
    }

    /** The slots of sector k of a cluster, which is in the buffer. */
    method ScanSector<S>(cluster: Word, ghost budget: nat, ghost k: nat, cb: (S, Dirent) -> (S, bool), ghost s0: S,
                         s1: S)
      returns (done: bool, status: Status, s: S)
      requires Valid() && mounted && ValidCluster(Geo(), cluster) && budget > 0 && k < sectorsPerCluster
      requires sectorBuffer[..bytesPerSector] == SectorBytes(device.medium, volumeStart + DataSector(Geo(), cluster, k))
      requires Seen(device.medium, Geo(), cluster, k, 0, cb, s0, s1)
      ensures if done then (status, s) == Scanned(ListFrom(device.medium, Geo(), cluster, budget), cb, s0)
              else Seen(device.medium, Geo(), cluster, k, device.medium.sectorSize / 32, cb, s0, s)
    {
      hide ListFrom, Scanned, Seen, Decode, SectorBytes, DataSector, GeometryOk;
      ghost var d, g := device.medium, Geo();
      done, status, s := false, OK, s1;
      SameSectorSize(d, g);
      var offset := 0;
      ghost var j := 0;
      while offset + 32 <= bytesPerSector
        invariant offset == 32 * j <= bytesPerSector
        invariant Seen(d, g, cluster, k, j, cb, s0, s)
        decreases bytesPerSector - offset
      {
        var raw: Raw := sectorBuffer[offset..offset + 32];
        assert raw == sectorBuffer[..bytesPerSector][offset..offset + 32] == SlotAt(d, g, cluster, k, j);
        hide SlotAt;
        if raw[0] == 0 {
          EndSlot(d, g, cluster, budget, k, j, cb, s0, s);
          return true, OK, s;
        }
        var entry := EntryFromRaw(raw);
        if entry.Some? {
          LiveSlot(d, g, cluster, budget, k, j, cb, s0, s);
          var (s', stop) := cb(s, entry.value);
          s := s';
          if stop {
            return true, OK, s;
          }
        } else {
          DeadSlot(d, g, cluster, k, j, cb, s0, s);
        }
        offset := offset + 32;
        j := j + 1;
      }
    }

    /** next_cluster; on success the successor, or END_OF_CHAIN. */
    method NextCluster(cluster: Word) returns (status: Status, next: Word)
      requires Valid() && mounted
      modifies sectorBuffer, device
      ensures !ValidCluster(Geo(), cluster) ==> status == EBADFS && device.failures == old(device.failures)
      ensures ValidCluster(Geo(), cluster) && device.failures == old(device.failures) ==>
                match LinkOf(device.medium, Geo(), cluster)
                case Next(x) => status == OK && next == x != END_OF_CHAIN && ValidCluster(Geo(), next)
                case End => status == OK && next == END_OF_CHAIN
                case Bad => status == EBADFS
      ensures device.failures != old(device.failures) ==> CopyFailed(status, old(device.failures)) && InTable()
    {
      hide TableEntry, BitAnd;
      if !(cluster >= 2 && cluster - 2 < clusterCount) {
        return EBADFS, 0;
      }
      var fetched, entry := FetchEntry(cluster);
      if fetched != OK {
        return fetched, 0;
      }
      FatMask(entry);
      var value := BitAnd(entry, 0x0fff_ffff);
      if value >= 0x0fff_fff8 {
        return OK, END_OF_CHAIN;
      }
      if value == 0x0fff_fff7 || (value >= 0x0fff_fff0 && value < 0x0fff_fff8) {
        return EBADFS, 0;
      }
      if !(value >= 2 && value - 2 < clusterCount) {
        return EBADFS, 0;
      }
      return OK, value;
    }

    /** lookup */
    method Lookup(path: Option<CString>) returns (outcome: Outcome)
      requires Valid() && mounted
      modifies sectorBuffer, device
      ensures outcome.Failed? ==> outcome.status != OK
      ensures device.failures != old(device.failures) ==>
                outcome.Failed? && ScanFailed(outcome.status, old(device.failures))
      ensures device.failures == old(device.failures) ==>
                outcome == if path == None then Failed(EINVAL) else FatLookup.Lookup(device.medium, Geo(), path.value)
    {
      hide Resolve, Search, Scanned, FatDirectory.ListDirectory, Parts, SameName, GeometryOk, IsDirectory;
      if path == None {
        return Failed(EINVAL);
      }
      ghost var d, g := device.medium, Geo();
      Bounds(d, g);
      var text: CString := path.value;
      var position: nat, directory: Word := 0, rootCluster;
      assert text[0..] == text;
      while true
        invariant 0 <= position <= |text| && (position == 0 ==> directory == rootCluster)
        invariant device.failures == old(device.failures)
        invariant Resolve(d, g, directory, Parts(text[position..])) == FatLookup.Lookup(d, g, text)
        decreases |text| - position
      {
        var code, part, next := Component(text, position);
        if code < 0 {
          ResolveOverlong(d, g, directory);
          return Failed(EINVAL);
        }
        if code == 0 {
          ResolveNothing(d, g, directory);
          return if next == 0 || directory == rootCluster then Found(RootEntry(directory)) else Failed(ENOTFOUND);
        }
        ResolveName(d, g, directory, part, Parts(text[next..]));
        position := next;
        var dot := NamesEqual(part, DOT_NAME);
        if dot {
          continue;
        }
        var result, found := ScanDirectory(directory, FindCallback(part), None);
        if device.failures == old(device.failures) {
          SearchByScan(FatDirectory.ListDirectory(d, g, directory), part, result, found);
        }
        if result != OK {
          return Failed(result);
        }
        if found == None {
          return Failed(ENOTFOUND);
        }
        position := SkipSeparators(text, position);
        if At(text, position) == 0 {
          return Found(found.value);
        }
        if !IsDirectory(found.value) {
          return Failed(ENOTDIR);
        }
        directory := found.value.firstCluster;
        if !(directory >= 2 && directory - 2 < clusterCount) {
          return Failed(EBADFS);
        }
      }
    }

    /** fat32_list_directory */
    method ListDirectory<S>(path: Option<CString>, callback: Option<(S, Dirent) -> (S, bool)>, s0: S)
      returns (status: Status, s: S)
      requires Valid()
      modifies sectorBuffer, device
      ensures callback == None ==> (status, s) == (EINVAL, s0)
      ensures callback.Some? && !mounted ==> (status, s) == (EBADFS, s0)
      ensures callback.Some? && mounted && device.failures != old(device.failures) ==>
                && ScanFailed(status, old(device.failures))
                && (s == s0 || SawListed(device.medium, Geo(), path, callback.value, s0, s))
      ensures mounted ==> bytesPerSector != 0
      ensures callback.Some? && mounted && device.failures == old(device.failures) ==>
                var d, g := device.medium, Geo();
                var found := FatLookup.Lookup(d, g, if path == None then [SLASH] else path.value);
                if found.Failed? then (status, s) == (found.status, s0)
                else if found.entry.attributes / 16 % 2 == 0 then (status, s) == (ENOTDIR, s0)
                else
                  (status, s) == Scanned(FatDirectory.ListDirectory(d, g, found.entry.firstCluster), callback.value, s0)
    {
      hide FatLookup.Lookup, Scanned, FatDirectory.ListDirectory, GeometryOk, IsDirectory, SawPrefix;
      if mounted {
        Bounds(device.medium, Geo());
      }
      s := s0;
      if callback == None {
        return EINVAL, s;
      }
      if !mounted {
        return EBADFS, s;
      }
      var outcome := Lookup(if path == None then Some([SLASH]) else path);
      if outcome.Failed? {
        return outcome.status, s;
      }
      DirectoryBit(outcome.entry);
      if !IsDirectory(outcome.entry) {
        return ENOTDIR, s;
      }
      status, s := ScanDirectory(outcome.entry.firstCluster, callback.value, s0);
    }

    /** fat32_read_file */
    method ReadFile(path: Option<CString>, buffer: array?<Byte>, capacity: Word)
      returns (status: Status, bytesRead: Word)
      requires Valid() && (buffer != null ==> buffer != sectorBuffer && capacity <= buffer.Length)
      modifies sectorBuffer, device, buffer
      ensures !mounted ==> status == (if path == None then EINVAL else EBADFS) && bytesRead == 0
      ensures mounted ==> bytesPerSector != 0 && ClusterBytes(Geo()) > 0
      ensures mounted && device.failures != old(device.failures) ==>
                bytesRead == 0 && (ScanFailed(status, old(device.failures)) || CopyFailed(status, old(device.failures)))
      ensures mounted && path == None ==> status == EINVAL && bytesRead == 0
      ensures mounted && path.Some? && device.failures == old(device.failures) ==>
                var d, g := device.medium, Geo();
                var found := FatLookup.Lookup(d, g, path.value);
                if found.Failed? then status == found.status && bytesRead == 0
                else
                  && ReadMeans(d, g, found.entry, buffer != null, capacity, status)
                  && bytesRead == if status == OK then found.entry.size else 0
      ensures mounted && status == OK ==>
                var d, g := device.medium, Geo();
                path.Some?
                && var found := FatLookup.Lookup(d, g, path.value);
                   && found.Found? && found.entry.attributes / 16 % 2 == 0 && bytesRead == found.entry.size <= capacity
                   && (buffer != null ==> Delivered(d, g, found.entry.firstCluster, buffer[..found.entry.size]))
      ensures buffer != null ==>
                var size := if mounted && path.Some? then
                              Extent(FatLookup.Lookup(device.medium, Geo(), path.value), capacity)
                            else 0;
                forall i :: size <= i < buffer.Length ==> buffer[i] == old(buffer[i])
    {
      hide FatLookup.Lookup, ReadStatus, Delivered, GeometryOk, IsDirectory, ClusterBytes, ReadMeans;
      bytesRead := 0;
      if mounted {
        Bounds(device.medium, Geo());
      }
      if path == None {
        return EINVAL, 0;
      }
      if !mounted {
        return EBADFS, 0;
      }
      var outcome := Lookup(path);
      if outcome.Failed? {
        return outcome.status, 0;
      }
      var entry := outcome.entry;
      DirectoryBit(entry);
      EarlyMeans(device.medium, Geo(), entry, buffer != null, capacity);
      if IsDirectory(entry) {
        return EISDIR, 0;
      }
      if entry.size != 0 && buffer == null {
        return EINVAL, 0;
      }
      if capacity < entry.size {
        return ENOSPC, 0;
      }
      if entry.size == 0 {
        DeliverNothing(device.medium, Geo(), entry.firstCluster);
        assert buffer != null ==> buffer[..0] == [];
        return OK, 0;
      }
      ReadingMeans(device.medium, Geo(), entry, capacity);
      status := CopyChain(entry.firstCluster, entry.size, buffer);
      bytesRead := if status == OK then entry.size else 0;
    }

    /** fat32_read_file's loop over the clusters of the chain. */
    method CopyChain(first: Word, size: Word, buffer: array<Byte>) returns (status: Status)
      requires Valid() && mounted && 0 < size <= buffer.Length && buffer != sectorBuffer
      modifies sectorBuffer, device, buffer
      ensures bytesPerSector != 0 && ClusterBytes(Geo()) > 0
      ensures device.failures != old(device.failures) ==> CopyFailed(status, old(device.failures))
      ensures device.failures == old(device.failures) ==> status == ReadStatus(device.medium, Geo(), first, size)
      ensures status == OK ==> Delivered(device.medium, Geo(), first, buffer[..size])
      ensures forall i :: size <= i < buffer.Length ==> buffer[i] == old(buffer[i])
    {
      hide ReadStatus, Delivered, GeometryOk, ClusterBytes, Follow, LinkOf;
      ghost var d, g := device.medium, Geo();
      Bounds(d, g);
      if !(first >= 2 && first - 2 < clusterCount) {
        NoFirstCluster(d, g, first, size);
        return EBADFS;
      }
      var cluster: Word, remaining: Word, copied: Word, visited: Word := first, size, 0, 0;
      DeliverNothing(d, g, first);
      assert buffer[..0] == [];
      ChainStarts(d, g, first);
      while remaining != 0
        invariant 0 <= visited <= clusterCount && copied + remaining == size
        invariant remaining != 0 ==>
                    copied == visited * ClusterBytes(g) && Follow(d, g, first, visited) == Some(cluster)
        invariant copied <= visited * ClusterBytes(g)
        invariant device.failures == old(device.failures)
        invariant Delivered(d, g, first, buffer[..copied])
        invariant forall i :: size <= i < buffer.Length ==> buffer[i] == old(buffer[i])
        decreases remaining
      {
        if visited + 1 > clusterCount {
          StopsInLoop(d, g, first, size);
          return ELOOP;
        }
        visited := Wrap32(visited + 1);
        status, copied, remaining := CopyCluster(first, visited - 1, cluster, size, buffer, copied, remaining);
        if status != OK {
          return;
        }
        if remaining != 0 {
          LinkMeans(d, g, first, visited - 1, cluster);
          if Follow(d, g, first, visited) == None {
            StopsAtLink(d, g, first, size, visited - 1);
          }
          status, cluster := NextCluster(cluster);
          if status != OK {
            return;
          }
          if cluster == END_OF_CHAIN {
            return EBADFS;
          }
        }
      }
      StopsDone(d, g, first, buffer[..size], visited);
      status := OK;
    }

    /** The sectors of one cluster, as far as bytes are wanted. */
    method CopyCluster(ghost first: Word, ghost n: nat, cluster: Word, ghost size: Word, buffer: array<Byte>,
                       copied0: Word, remaining0: Word)
      returns (status: Status, copied: Word, remaining: Word)
      requires Valid() && mounted && ValidCluster(Geo(), cluster) && buffer != sectorBuffer
      requires copied0 + remaining0 == size <= buffer.Length && remaining0 > 0
      requires bytesPerSector != 0 && ClusterBytes(Geo()) > 0 && copied0 == n * ClusterBytes(Geo())
      requires Follow(device.medium, Geo(), first, n) == Some(cluster)
      requires Delivered(device.medium, Geo(), first, buffer[..copied0])
      modifies sectorBuffer, device, buffer
      ensures copied + remaining == size && (status == OK ==> remaining < remaining0)
      ensures status == OK ==>
                copied <= (n + 1) * ClusterBytes(Geo()) && (remaining != 0 ==> copied == (n + 1) * ClusterBytes(Geo()))
      ensures if status == OK then device.failures == old(device.failures)
              else CopyFailed(status, old(device.failures))
      ensures Delivered(device.medium, Geo(), first, buffer[..copied])
      ensures forall i :: size <= i < buffer.Length ==> buffer[i] == old(buffer[i])
    {
      hide Delivered, GeometryOk, ClusterBytes, Follow, SectorBytes, DataSector;
      ghost var d, g := device.medium, Geo();
      Bounds(d, g);
      ClusterMeans(g, n);
      status, copied, remaining := OK, copied0, remaining0;
      var k: Word := 0;
      while k < sectorsPerCluster && remaining != 0
        invariant 0 <= k <= sectorsPerCluster && copied + remaining == size && remaining <= remaining0
        invariant status == OK && (k > 0 ==> remaining < remaining0)
        invariant copied <= n * ClusterBytes(g) + k * bytesPerSector
        invariant remaining != 0 ==> copied == n * ClusterBytes(g) + k * bytesPerSector
        invariant device.failures == old(device.failures)
        invariant Delivered(d, g, first, buffer[..copied])
        invariant forall i :: size <= i < buffer.Length ==> buffer[i] == old(buffer[i])
        decreases sectorsPerCluster - k
      {
        status, copied, remaining := CopySector(first, n, k, cluster, size, buffer, copied, remaining);
        if status != OK {
          return;
        }
        NextSector(k, bytesPerSector);
        k := k + 1;
      }
      if k < sectorsPerCluster {
        MulMono(k, sectorsPerCluster, bytesPerSector);
      }
    }

    /** One sector, or the wanted start of it. */
    method CopySector(ghost first: Word, ghost n: nat, k: Word, cluster: Word, ghost size: Word, buffer: array<Byte>,
                      copied0: Word, remaining0: Word)
      returns (status: Status, copied: Word, remaining: Word)
      requires Valid() && mounted && ValidCluster(Geo(), cluster) && buffer != sectorBuffer && k < sectorsPerCluster
      requires copied0 + remaining0 == size <= buffer.Length && remaining0 > 0
      requires bytesPerSector != 0 && ClusterBytes(Geo()) > 0 && copied0 == n * ClusterBytes(Geo()) + k * bytesPerSector
      requires Follow(device.medium, Geo(), first, n) == Some(cluster)
      requires Delivered(device.medium, Geo(), first, buffer[..copied0])
      modifies sectorBuffer, device, buffer
      ensures copied + remaining == size && copied <= copied0 + bytesPerSector
      ensures if status == OK then
                && device.failures == old(device.failures) && remaining < remaining0
                && (remaining != 0 ==> copied == copied0 + bytesPerSector)
              else CopyFailed(status, old(device.failures))
      ensures Delivered(device.medium, Geo(), first, buffer[..copied])
      ensures forall i :: size <= i < buffer.Length ==> buffer[i] == old(buffer[i])
    {
      hide Delivered, GeometryOk, ClusterBytes, Follow, SectorBytes, DataSector;
      ghost var d, g := device.medium, Geo();
      SameSectorSize(d, g);
      copied, remaining := copied0, remaining0;
      status := ReadDataSector(cluster, k);
      if status != OK {
        return;
      }
      var amount := if remaining < bytesPerSector then remaining else bytesPerSector;
      ghost var before := buffer[..copied];
      CopyOut(buffer, copied, amount);
      assert sectorBuffer[..amount] == sectorBuffer[..bytesPerSector][..amount];
      DeliverSector(d, g, first, before, n, k, cluster, amount);
      copied, remaining := copied + amount, remaining - amount;
    }

    /** The byte loop: the start of the sector buffer goes to the output. */
    method CopyOut(buffer: array<Byte>, copied: Word, amount: Word)
      requires buffer != sectorBuffer && copied + amount <= buffer.Length && amount <= sectorBuffer.Length
      modifies buffer
      ensures buffer[..copied + amount] == old(buffer[..copied]) + sectorBuffer[..amount]
      ensures forall i :: copied + amount <= i < buffer.Length ==> buffer[i] == old(buffer[i])
    {
      var i: Word := 0;
      while i < amount
        invariant 0 <= i <= amount
        invariant buffer[..copied + i] == old(buffer[..copied]) + sectorBuffer[..i]
        invariant forall j :: copied + i <= j < buffer.Length ==> buffer[j] == old(buffer[j])
      {
        buffer[copied + i] := sectorBuffer[i];
        assert buffer[..copied + (i + 1)] == buffer[..copied + i] + [sectorBuffer[i]];
        assert sectorBuffer[..i + 1] == sectorBuffer[..i] + [sectorBuffer[i]];
        i := i + 1;
      }
    }

    // ------------------------------------------------------------ mounting

    /** The device's sectors fit the buffer. */
    predicate Sized()
      reads this
    {
      sectorBuffer.Length == MAX_SECTOR_SIZE && device != null && 512 <= device.medium.sectorSize <= MAX_SECTOR_SIZE
    }

    /** The buffer holds that sector of the device. */
    ghost predicate Holds(sector: Word)
      reads this, sectorBuffer
    {
      && Sized()
      && sectorBuffer[..device.medium.sectorSize] == SectorBytes(device.medium, sector)
    }

    /** fat32_mount */
    method Mount(dev: BlockDevice?) returns (status: Status)
      requires Valid()
      modifies this, sectorBuffer, dev
      ensures Valid()
      ensures status == EINVAL <==>
                dev == null || !dev.connected || dev.medium.sectorSize < 512 || dev.medium.sectorSize > MAX_SECTOR_SIZE
      ensures status == EINVAL ==> mounted == old(mounted) && device == old(device) && Geo() == old(Geo())
      ensures status != EINVAL ==>
                && device == dev && mounted == (status == OK) && status in {OK, EIO, EBADFS}
                && (status == EIO <==> dev.fails(old(dev.attempts)))
                && var target := Mounted(dev.medium, dev.fails, old(dev.attempts));
                   (status == OK <==> target.Some?) && (target.Some? ==> Geo() == target.value)
    {
      hide LooksLikeBpb, VolumeOk, Pick, SectorBytes, TryOrder, GeometryOk, Choose;
      if dev == null || !dev.connected || dev.medium.sectorSize < 512 || dev.medium.sectorSize > MAX_SECTOR_SIZE {
        return EINVAL;
      }
      mounted, device := false, dev;
      ghost var d, t := dev.medium, dev.attempts;
      var ok := dev.ReadSector(0, sectorBuffer);
      if !ok {
        return EIO;
      }
      var found, start, limit := FindVolume();
      if !found {
        return EBADFS;
      }
      status := Derive(start, limit);
    }

    /** Sector 0, or else the partition table in it, leads to the volume. */
    method FindVolume() returns (found: bool, start: Word, limit: Word)
      requires Valid() && !mounted && Holds(0) && device.connected
      modifies sectorBuffer, device
      ensures var c := Choose(device.medium, device.fails, old(device.attempts), SectorBytes(device.medium, 0));
              if found then c == Chosen(start, limit) && Holds(start) else c == NoVolume
    {
      hide LooksLikeBpb, Pick, SectorBytes, Select;
      ghost var d, t, fails := device.medium, device.attempts, device.fails;
      found, start, limit := false, 0, 0;
      var boot := sectorBuffer[..device.medium.sectorSize];
      if LooksLikeBpb(boot, device.medium.sectorSize) {
        return true, 0, 0;
      }
      if Field16(boot, 510) != 0xAA55 {
        return;
      }
      var ps: seq<Partition> := [];
      var k := 0;
      while k < 4
        invariant 0 <= k <= 4 && ps == Partitions(boot)[..k]
      {
        ps := ps + [PartitionAt(boot, k)];
        k := k + 1;
      }
      assert ps == Partitions(boot) && Later(ps, 0) == TryOrder(ps);
      hide Partitions, Later, TryOrder;
      var pass := 0;
      while pass < 2 && !found
        invariant 0 <= pass <= 2 && Sized()
        invariant found ==> Holds(start) && Picked(Pick(d, fails, t, TryOrder(ps)), start, limit)
        invariant !found ==> Pick(d, fails, t, TryOrder(ps)) == Pick(d, fails, device.attempts, Later(ps, pass))
      {
        LaterStep(ps, pass);
        found, start, limit := TryPass(ps, pass == 0, Later(ps, pass + 1));
        pass := pass + 1;
      }
      PickNothing(d, fails, device.attempts, ps);
    }

    /** One pass over the partition table. */
    method TryPass(ps: seq<Partition>, conventional: bool, ghost after: seq<Partition>)
      returns (found: bool, start: Word, limit: Word)
      requires |ps| == 4 && Sized() && device.connected
      modifies sectorBuffer, device
      ensures found ==>
                && Holds(start)
                && var candidates := Select(ps, conventional) + after;
                   Picked(Pick(device.medium, device.fails, old(device.attempts), candidates), start, limit)
      ensures !found ==>
                Pick(device.medium, device.fails, old(device.attempts), Select(ps, conventional) + after)
                == Pick(device.medium, device.fails, device.attempts, after)
    {
      hide LooksLikeBpb, Pick, SectorBytes, Select, Conventional, Plausible, Acceptable;
      ghost var d, t, fails := device.medium, device.attempts, device.fails;
      found, start, limit := false, 0, 0;
      var i := 0;
      assert ps[0..] == ps;
      while i < 4
        invariant 0 <= i <= 4
        invariant Pick(d, fails, device.attempts, Select(ps[i..], conventional) + after)
                  == Pick(d, fails, t, Select(ps, conventional) + after)
      {
        SelectStep(ps, i, conventional, after);
        ghost var rest := Select(ps[i + 1..], conventional) + after;
        PickStep(d, fails, device.attempts, ps[i], rest);
        assert [] + rest == rest;
        var p := ps[i];
        if Conventional(p) == conventional {
          found := TryPartition(p);
          if found {
            return true, p.start, p.size;
          }
        }
        i := i + 1;
      }
      SelectNothing(ps, conventional, after);
    }

    /** One entry of the table: it is read if it is plausible, and taken if it is acceptable. */
    method TryPartition(p: Partition) returns (found: bool)
      requires Sized() && device.connected
      modifies sectorBuffer, device
      ensures var d := device.medium;
              && (found <==> Plausible(d, p) && !device.fails(old(device.attempts)) && Acceptable(d, p))
              && device.attempts == old(device.attempts) + (if Plausible(d, p) then 1 else 0)
              && (found ==> Holds(p.start))
    {
      hide LooksLikeBpb, SectorBytes;
      if p.start == 0 || p.size == 0 {
        return false;
      }
      var count := device.medium.sectorCount;
      if count != 0 && (p.start >= count || p.size > Wrap32(count - p.start)) {
        return false;
      }
      var ok := device.ReadSector(p.start, sectorBuffer);
      if !ok {
        return false;
      }
      var boot := sectorBuffer[..device.medium.sectorSize];
      found := LooksLikeBpb(boot, device.medium.sectorSize) && Field32(boot, 32) <= p.size
        && p.start <= 0xffff_ffff - Field32(boot, 32);
    }

    /** The checks on single fields of a boot sector, the first four of them already stored. */
    method ShapeFits(boot: seq<Byte>) returns (fits: bool)
      requires |boot| >= 512 && device != null && bytesPerSector == Field16(boot, 11)
      requires sectorsPerCluster == boot[13] && reservedSectors == Field16(boot, 14)
      ensures fits <==> ShapeOk(device.medium, boot)
    {
      hide PowerOfTwo, Field16;
      fits := !(bytesPerSector != device.medium.sectorSize
                || bytesPerSector < 512 || !PowerOfTwo(bytesPerSector) || bytesPerSector % 4 != 0
                || !PowerOfTwo(sectorsPerCluster) || sectorsPerCluster > 128
                || reservedSectors == 0 || boot[16] == 0 || boot[16] > 2
                || Field16(boot, 17) != 0 || Field16(boot, 19) != 0 || Field16(boot, 22) != 0 || Field16(boot, 42) != 0
                || (boot[66] != 0x28 && boot[66] != 0x29));
    }

    /** The geometry of the volume whose boot sector is in the buffer; fields are stored before the last check. */
    method Derive(start: Word, limit: Word) returns (status: Status)
      requires Valid() && !mounted && Holds(start) && device.connected
      modifies this
      ensures Valid() && device == old(device) && mounted == (status == OK) && status in {OK, EBADFS}
      ensures var b := SectorBytes(device.medium, start);
              && (status == OK <==> VolumeOk(device.medium, b, start, limit))
              && (status == OK ==> Geo() == GeometryOf(device.medium, b, start, limit))
    {
      hide SectorBytes, GeometryOk, PowerOfTwo, Field16, Field32, CountsOk, BitAnd, DataStart, Clusters, ShapeOk;
      ghost var d := device.medium;
      var boot := sectorBuffer[..device.medium.sectorSize];
      ShapeGivesClusters(d, boot);
      volumeStart, bytesPerSector := start, Field16(boot, 11);
      sectorsPerCluster, reservedSectors := boot[13], Field16(boot, 14);
      var fits := ShapeFits(boot);
      if !fits {
        return EBADFS;
      }
      var total, fatSize := Field32(boot, 32), Field32(boot, 36);
      FatMask(Field32(boot, 44));
      rootCluster := BitAnd(Field32(boot, 44), 0x0fff_ffff);
      if total == 0 || fatSize == 0 || BitAnd(Field32(boot, 44), 0xf000_0000) != 0 || rootCluster < 2 {
        return EBADFS;
      }
      var count := device.medium.sectorCount;
      if start > 0xffff_ffff - total || (limit != 0 && total > limit)
         || (count != 0 && (start > count || total > Wrap32(count - start))) {
        return EBADFS;
      }
      assert PlaceOk(d, boot, start, limit);
      hide PlaceOk;
      var ok, first, clusters := CountClusters(boot);
      if !ok {
        return EBADFS;
      }
      assert VolumeOk(d, boot, start, limit);
      hide VolumeOk;
      fatStart, fatSectors, dataStart, clusterCount := reservedSectors, fatSize, first, clusters;
      AcceptedGeometryIsSafe(d, boot, start, limit);
      assert Geo() == GeometryOf(d, boot, start, limit);
      hide GeometryOf;
      mounted := true;
      status := OK;
    }
  }

  lemma ShapeGivesClusters(d: Medium, b: seq<Byte>)
    requires |b| >= 512
    ensures ShapeOk(d, b) ==> b[13] != 0 && b[16] <= 2
    ensures PowerOfTwo(b[13]) ==> b[13] != 0
  {
  }

  /** The arithmetic of fat32_mount: where the data starts and how many clusters there are. */
  method CountClusters(boot: seq<Byte>) returns (ok: bool, first: Word, clusters: Word)
    requires |boot| >= 512 && boot[13] != 0 && boot[16] <= 2 && 2 <= Field32(boot, 44)
    ensures ok <==> CountsOk(boot)
    ensures ok ==> first == DataStart(boot) && clusters == Clusters(boot)
  {
    hide Field16, Field32;
    QuadsFit(boot);
    ok, first, clusters := false, 0, 0;
    var total, root := Field32(boot, 32), Field32(boot, 44);
    var quadStart := Wrap64(Field16(boot, 14) + boot[16] * Field32(boot, 36));
    if quadStart >= total || quadStart > 0xffff_ffff {
      return;
    }
    hide DataStart, Wrap64;
    first := Wrap32(quadStart);
    WrapSmall(total - first);
    DivParts(total - first, boot[13]);
    clusters := Wrap32(total - first) / boot[13];
    if clusters == 0 || clusters > 0x0fff_fff5 || root - 2 >= clusters {
      return;
    }
    ok := Wrap64(Field32(boot, 36) * Field16(boot, 11)) / 4 >= clusters + 2;
  }
}
