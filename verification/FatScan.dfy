/**
 Scanning a directory one slot at a time: how far a scan has come, and what
 each slot, sector and cluster adds to it.
 */
module FatScan {
  import opened Options
  import opened Machine
  import opened Disk
  import opened FatFormat
  import opened FatChain
  import opened FatNames
  import opened FatDirectory

  // ---------------------------------------------- scanning, slot by slot

  /** Slots seen before slot j of sector k of a cluster. */
  function SlotsBefore(d: Medium, g: Geometry, cluster: Word, k: nat, j: nat): seq<Raw>
    requires 32 * j <= d.sectorSize
  {
    SectorsSlots(d, g, cluster, k) + Slots(SectorBytes(d, g.volumeStart + DataSector(g, cluster, k)), j)
  }

  lemma {:induction false} SectorsArePrefix(d: Medium, g: Geometry, cluster: Word, k: nat, n: nat)
    returns (rest: seq<Raw>)
    requires k <= n
    ensures SectorsSlots(d, g, cluster, n) == SectorsSlots(d, g, cluster, k) + rest
    decreases n
  {
    if k == n {
      rest := [];
    } else {
      var r := SectorsArePrefix(d, g, cluster, k, n - 1);
      rest := r + SectorSlots(SectorBytes(d, g.volumeStart + DataSector(g, cluster, n - 1)));
    }
  }

  lemma SlotsArePrefix(d: Medium, g: Geometry, cluster: Word, k: nat, j: nat) returns (rest: seq<Raw>)
    requires k < g.sectorsPerCluster && 32 * j <= d.sectorSize
    ensures ClusterSlots(d, g, cluster) == SlotsBefore(d, g, cluster, k, j) + rest
  {
    var bytes := SectorBytes(d, g.volumeStart + DataSector(g, cluster, k));
    var all := SectorSlots(bytes);
    assert all == Slots(bytes, j) + all[j..];
    assert SectorsSlots(d, g, cluster, k + 1) == SectorsSlots(d, g, cluster, k) + all;
    hide Slots, SectorSlots, SectorBytes, SectorsSlots, DataSector;
    var r := SectorsArePrefix(d, g, cluster, k + 1, g.sectorsPerCluster);
    rest := all[j..] + r;
    Reassociate(SectorsSlots(d, g, cluster, k), Slots(bytes, j), all[j..], r);
  }

  lemma Reassociate(a: seq<Raw>, b: seq<Raw>, c: seq<Raw>, e: seq<Raw>)
    ensures a + (b + c) + e == a + b + (c + e)
  {
  }

  lemma SlotsStep(d: Medium, g: Geometry, cluster: Word, k: nat, j: nat)
    requires 32 * (j + 1) <= d.sectorSize
    ensures var bytes := SectorBytes(d, g.volumeStart + DataSector(g, cluster, k));
            SlotsBefore(d, g, cluster, k, j + 1) == SlotsBefore(d, g, cluster, k, j) + [SlotOf(bytes, j)]
  {
    var bytes := SectorBytes(d, g.volumeStart + DataSector(g, cluster, k));
    assert Slots(bytes, j + 1) == Slots(bytes, j) + [SlotOf(bytes, j)];
  }

  lemma SectorDone(d: Medium, g: Geometry, cluster: Word, k: nat)
    ensures SlotsBefore(d, g, cluster, k, d.sectorSize / 32) == SlotsBefore(d, g, cluster, k + 1, 0)
    ensures SlotsBefore(d, g, cluster, k + 1, 0) == SectorsSlots(d, g, cluster, k + 1)
  {
  }

  /** How far a scan has come: no end mark in the slots seen, and the callback went on from s0 to s. */
  ghost predicate Progress<S>(slots: seq<Raw>, cb: (S, Dirent) -> (S, bool), s0: S, s: S) {
    !Ended(slots) && FoldUntil(Entries(slots), cb, s0) == (s, false)
  }

  /** One slot more that is not the end mark: the callback sees it if it is live. */
  lemma ProgressStep<S>(slots: seq<Raw>, raw: Raw, cb: (S, Dirent) -> (S, bool), s0: S, s: S)
    requires Progress(slots, cb, s0, s) && raw[0] != 0
    ensures !Ended(slots + [raw])
    ensures var e := Decode(raw);
            if e == None then Progress(slots + [raw], cb, s0, s)
            else
              var (s', stop) := cb(s, e.value);
              FoldUntil(Entries(slots + [raw]), cb, s0) == (s', stop) && (!stop ==> Progress(slots + [raw], cb, s0, s'))
  {
    hide Decode;
    EntriesAppend(slots, [raw]);
    EndedAppend(slots, [raw]);
    var e := Decode(raw);
    assert [raw][1..] == [];
    assert Entries([raw]) == if e.Some? then [e.value] else [];
    FoldAppend(Entries(slots), Entries([raw]), cb, s0);
    if e.Some? {
      assert [e.value][1..] == [];
    }
  }

  /** What was seen of a cluster without an end mark comes first in the listing. */
  lemma ListStartsWith(d: Medium, g: Geometry, cluster: Word, budget: nat, slots: seq<Raw>, rest: seq<Raw>)
    returns (more: seq<Dirent>)
    requires g.bytesPerSector != 0 && budget > 0 && ClusterSlots(d, g, cluster) == slots + rest && !Ended(slots)
    ensures ListFrom(d, g, cluster, budget).entries == Entries(slots) + more
  {
    hide ClusterSlots, LinkOf, ListFrom, Entries, Ended;
    ListOneCluster(d, g, cluster, budget);
    EntriesAppend(slots, rest);
    more := Entries(rest);
    if !Ended(slots + rest) && LinkOf(d, g, cluster).Next? {
      var tail := ListFrom(d, g, LinkOf(d, g, cluster).cluster, budget - 1).entries;
      assert Entries(slots) + Entries(rest) + tail == Entries(slots) + (Entries(rest) + tail);
      more := Entries(rest) + tail;
    }
  }

  /** The callback stopped: nothing further matters. */
  lemma ScanStops<S>(d: Medium, g: Geometry, cluster: Word, budget: nat, slots: seq<Raw>, rest: seq<Raw>,
                     cb: (S, Dirent) -> (S, bool), s0: S, s: S)
    requires g.bytesPerSector != 0 && budget > 0 && ClusterSlots(d, g, cluster) == slots + rest
    requires !Ended(slots) && FoldUntil(Entries(slots), cb, s0) == (s, true)
    ensures Scanned(ListFrom(d, g, cluster, budget), cb, s0) == (OK, s)
  {
    hide ClusterSlots, LinkOf, ListFrom, Entries, Ended, FoldUntil;
    var more := ListStartsWith(d, g, cluster, budget, slots, rest);
    FoldAppend(Entries(slots), more, cb, s0);
  }

  /** The end mark was reached with the callback still going on. */
  lemma ScanReachesEnd<S>(d: Medium, g: Geometry, cluster: Word, budget: nat, slots: seq<Raw>, raw: Raw, rest: seq<Raw>,
                          cb: (S, Dirent) -> (S, bool), s0: S, s: S)
    requires g.bytesPerSector != 0 && budget > 0 && ClusterSlots(d, g, cluster) == slots + [raw] + rest
    requires Progress(slots, cb, s0, s) && raw[0] == 0
    ensures Scanned(ListFrom(d, g, cluster, budget), cb, s0) == (OK, s)
  {
    hide ClusterSlots, LinkOf, ListFrom;
    ListOneCluster(d, g, cluster, budget);
    EntriesAppend(slots, [raw]);
    EndedAppend(slots, [raw]);
    EntriesAppend(slots + [raw], rest);
    EndedAppend(slots + [raw], rest);
    assert Entries([raw]) == [];
    assert Entries(slots) + [] == Entries(slots);
  }

  /** As many clusters as the volume has were visited. */
  lemma OutOfBudget<S>(d: Medium, g: Geometry, cluster: Word, cb: (S, Dirent) -> (S, bool), s: S)
    requires g.bytesPerSector != 0
    ensures Scanned(ListFrom(d, g, cluster, 0), cb, s) == (ELOOP, s)
  {
  }

  /** A whole cluster went by: what is left is the rest of the chain, from the callback's state. */
  lemma ScanGoesOn<S>(d: Medium, g: Geometry, cluster: Word, budget: nat, cb: (S, Dirent) -> (S, bool), s0: S, s: S)
    requires g.bytesPerSector != 0 && budget > 0 && Progress(ClusterSlots(d, g, cluster), cb, s0, s)
    ensures Scanned(ListFrom(d, g, cluster, budget), cb, s0)
            == match LinkOf(d, g, cluster)
               case Next(x) => Scanned(ListFrom(d, g, x, budget - 1), cb, s)
               case End => (OK, s)
               case Bad => (EBADFS, s)
  {
    hide ClusterSlots, LinkOf, ListFrom;
    ListOneCluster(d, g, cluster, budget);
    match LinkOf(d, g, cluster)
    case Next(x) =>
      FoldAppend(Entries(ClusterSlots(d, g, cluster)), ListFrom(d, g, x, budget - 1).entries, cb, s0);
    case _ =>
  }

  /** Before slot j of sector k of a cluster: no end mark yet, and the callback went on to s. */
  ghost predicate Seen<S>(d: Medium, g: Geometry, cluster: Word, k: nat, j: nat, cb: (S, Dirent) -> (S, bool), s0: S,
                          s: S) {
    32 * j <= d.sectorSize && Progress(SlotsBefore(d, g, cluster, k, j), cb, s0, s)
  }

  /** Slot j of sector k of a cluster. */
  function SlotAt(d: Medium, g: Geometry, cluster: Word, k: nat, j: nat): Raw
    requires 32 * (j + 1) <= d.sectorSize
  {
    SlotOf(SectorBytes(d, g.volumeStart + DataSector(g, cluster, k)), j)
  }

  lemma SeenNothing<S>(d: Medium, g: Geometry, cluster: Word, cb: (S, Dirent) -> (S, bool), s0: S)
    ensures Seen(d, g, cluster, 0, 0, cb, s0, s0)
  {
    assert SlotsBefore(d, g, cluster, 0, 0) == [];
  }

  lemma SeenSector<S>(d: Medium, g: Geometry, cluster: Word, k: nat, cb: (S, Dirent) -> (S, bool), s0: S, s: S)
    requires Seen(d, g, cluster, k, d.sectorSize / 32, cb, s0, s)
    ensures Seen(d, g, cluster, k + 1, 0, cb, s0, s)
  {
    SectorDone(d, g, cluster, k);
    hide SlotsBefore, Progress;
  }

  lemma SeenCluster<S>(d: Medium, g: Geometry, cluster: Word, cb: (S, Dirent) -> (S, bool), s0: S, s: S)
    requires Seen(d, g, cluster, g.sectorsPerCluster, 0, cb, s0, s)
    ensures Progress(ClusterSlots(d, g, cluster), cb, s0, s)
  {
    assert SlotsBefore(d, g, cluster, g.sectorsPerCluster, 0) == ClusterSlots(d, g, cluster);
    hide SlotsBefore, ClusterSlots, Progress;
  }

  /** An end mark ends the scan of the whole chain. */
  lemma EndSlot<S>(d: Medium, g: Geometry, cluster: Word, budget: nat, k: nat, j: nat,
                   cb: (S, Dirent) -> (S, bool), s0: S, s: S)
    requires g.bytesPerSector != 0 && budget > 0 && k < g.sectorsPerCluster && 32 * (j + 1) <= d.sectorSize
    requires Seen(d, g, cluster, k, j, cb, s0, s) && SlotAt(d, g, cluster, k, j)[0] == 0
    ensures Scanned(ListFrom(d, g, cluster, budget), cb, s0) == (OK, s)
  {
    SlotsStep(d, g, cluster, k, j);
    var rest := SlotsArePrefix(d, g, cluster, k, j + 1);
    hide SlotsBefore, ClusterSlots, Progress, ListFrom, Scanned;
    var raw := SlotAt(d, g, cluster, k, j);
    hide SlotAt;
    ScanReachesEnd(d, g, cluster, budget, SlotsBefore(d, g, cluster, k, j), raw, rest, cb, s0, s);
  }

  /** A slot that is no live entry is passed over. */
  lemma DeadSlot<S>(d: Medium, g: Geometry, cluster: Word, k: nat, j: nat, cb: (S, Dirent) -> (S, bool), s0: S, s: S)
    requires 32 * (j + 1) <= d.sectorSize
    requires Seen(d, g, cluster, k, j, cb, s0, s)
    requires SlotAt(d, g, cluster, k, j)[0] != 0 && Decode(SlotAt(d, g, cluster, k, j)) == None
    ensures Seen(d, g, cluster, k, j + 1, cb, s0, s)
  {
    SlotsStep(d, g, cluster, k, j);
    hide SlotsBefore, Decode, Progress;
    ProgressStep(SlotsBefore(d, g, cluster, k, j), SlotAt(d, g, cluster, k, j), cb, s0, s);
  }

  /** The callback sees a live entry, and a stop ends the scan of the whole chain. */
  lemma LiveSlot<S>(d: Medium, g: Geometry, cluster: Word, budget: nat, k: nat, j: nat,
                    cb: (S, Dirent) -> (S, bool), s0: S, s: S)
    requires g.bytesPerSector != 0 && budget > 0 && k < g.sectorsPerCluster && 32 * (j + 1) <= d.sectorSize
    requires Seen(d, g, cluster, k, j, cb, s0, s)
    requires SlotAt(d, g, cluster, k, j)[0] != 0 && Decode(SlotAt(d, g, cluster, k, j)).Some?
    ensures var (s', stop) := cb(s, Decode(SlotAt(d, g, cluster, k, j)).value);
            if stop then Scanned(ListFrom(d, g, cluster, budget), cb, s0) == (OK, s')
            else Seen(d, g, cluster, k, j + 1, cb, s0, s')
  {
    SlotsStep(d, g, cluster, k, j);
    var rest := SlotsArePrefix(d, g, cluster, k, j + 1);
    hide SlotsBefore, ClusterSlots, Decode, Progress, ListFrom, Scanned, FoldUntil;
    var raw := SlotAt(d, g, cluster, k, j);
    ProgressStep(SlotsBefore(d, g, cluster, k, j), raw, cb, s0, s);
    var (s', stop) := cb(s, Decode(raw).value);
    if stop {
      ScanStops(d, g, cluster, budget, SlotsBefore(d, g, cluster, k, j + 1), rest, cb, s0, s');
    }
  }

  // ------------------------------------------------------ interrupted scans

  /** The callback saw the first entries of a listing, stopping at none, and is in state s. */
  ghost predicate SawPrefix<S>(entries: seq<Dirent>, cb: (S, Dirent) -> (S, bool), s0: S, s: S) {
    exists n :: 0 <= n <= |entries| && FoldUntil(entries[..n], cb, s0) == (s, false)
  }

  lemma NothingSeen<S>(entries: seq<Dirent>, cb: (S, Dirent) -> (S, bool), s0: S)
    ensures SawPrefix(entries, cb, s0, s0)
  {
    assert FoldUntil(entries[..0], cb, s0) == (s0, false);
  }

  /** A prefix of the rest, after all of the front, is a prefix of the whole. */
  lemma SeenFurther<S>(front: seq<Dirent>, rest: seq<Dirent>, cb: (S, Dirent) -> (S, bool), s0: S, s1: S, s: S)
    requires FoldUntil(front, cb, s0) == (s1, false) && SawPrefix(rest, cb, s1, s)
    ensures SawPrefix(front + rest, cb, s0, s)
  {
    var n :| 0 <= n <= |rest| && FoldUntil(rest[..n], cb, s1) == (s, false);
    FoldAppend(front, rest[..n], cb, s0);
    assert (front + rest)[..|front| + n] == front + rest[..n];
    assert FoldUntil((front + rest)[..|front| + n], cb, s0) == (s, false);
  }

  /** What a scan has seen of a cluster is a prefix of the listing from it. */
  lemma SeenIsPrefix<S>(d: Medium, g: Geometry, cluster: Word, budget: nat, k: nat, cb: (S, Dirent) -> (S, bool),
                        s0: S, s: S)
    requires g.bytesPerSector != 0 && budget > 0 && k <= g.sectorsPerCluster && Seen(d, g, cluster, k, 0, cb, s0, s)
    ensures SawPrefix(ListFrom(d, g, cluster, budget).entries, cb, s0, s)
  {
    var rest := SectorsArePrefix(d, g, cluster, k, g.sectorsPerCluster);
    assert SlotsBefore(d, g, cluster, k, 0) == SectorsSlots(d, g, cluster, k);
    hide SlotsBefore, ListFrom, Entries, Ended, FoldUntil, SectorsSlots, SawPrefix;
    var slots := SectorsSlots(d, g, cluster, k);
    var more := ListStartsWith(d, g, cluster, budget, slots, rest);
    NothingSeen(more, cb, s);
    SeenFurther(Entries(slots), more, cb, s0, s, s);
  }

  /** A whole cluster without an end mark comes first in the listing from it. */
  lemma ClusterComesFirst<S>(d: Medium, g: Geometry, cluster: Word, budget: nat, cb: (S, Dirent) -> (S, bool), s0: S,
                             s: S)
    requires g.bytesPerSector != 0 && budget > 0 && Progress(ClusterSlots(d, g, cluster), cb, s0, s)
    ensures FoldUntil(Entries(ClusterSlots(d, g, cluster)), cb, s0) == (s, false)
    ensures SawPrefix(ListFrom(d, g, cluster, budget).entries, cb, s0, s)
    ensures LinkOf(d, g, cluster).Next? ==>
              ListFrom(d, g, cluster, budget).entries
              == Entries(ClusterSlots(d, g, cluster))
                 + ListFrom(d, g, LinkOf(d, g, cluster).cluster, budget - 1).entries
  {
    hide ClusterSlots, LinkOf, ListFrom, Entries, Ended, FoldUntil, SawPrefix;
    ListOneCluster(d, g, cluster, budget);
    var slots := ClusterSlots(d, g, cluster);
    var more := ListStartsWith(d, g, cluster, budget, slots, []);
    NothingSeen(more, cb, s);
    SeenFurther(Entries(slots), more, cb, s0, s, s);
  }
}
