/** Directories as lists of entries, and scanning them with a callback that may stop. */
module FatDirectory {
  import opened Options
  import opened Machine
  import opened Disk
  import opened FatFormat
  import opened FatChain
  import opened FatNames

  type Raw = s: seq<Byte> | |s| == 32 witness seq<Byte>(32, _ => 0)

  /** The 32 bytes of slot k of a sector's contents. */
  function SlotOf(bytes: seq<Byte>, k: nat): Raw
    requires 32 * (k + 1) <= |bytes|
  {
    bytes[32 * k..32 * (k + 1)]
  }

  /** The first n slots of a sector. */
  function Slots(bytes: seq<Byte>, n: nat): (r: seq<Raw>)
    requires 32 * n <= |bytes|
    ensures |r| == n && forall k :: 0 <= k < n ==> r[k] == SlotOf(bytes, k)
  {
    seq<Raw>(n, k requires 0 <= k < n => SlotOf(bytes, k))
  }

  function SectorSlots(bytes: seq<Byte>): seq<Raw> {
    Slots(bytes, |bytes| / 32)
  }

  /** Slots of the first n sectors of a cluster. */
  function SectorsSlots(d: Medium, g: Geometry, cluster: Word, n: nat): seq<Raw>
    decreases n
  {
    if n == 0 then []
    else SectorsSlots(d, g, cluster, n - 1)
         + SectorSlots(SectorBytes(d, g.volumeStart + DataSector(g, cluster, n - 1)))
  }

  function ClusterSlots(d: Medium, g: Geometry, cluster: Word): seq<Raw> {
    SectorsSlots(d, g, cluster, g.sectorsPerCluster)
  }

  function ChainSlots(d: Medium, g: Geometry, clusters: seq<Word>): seq<Raw> {
    if clusters == [] then [] else ClusterSlots(d, g, clusters[0]) + ChainSlots(d, g, clusters[1..])
  }

  // ---------------------------------------------------------- entry lists

  /** The end mark is in the list. */
  predicate Ended(slots: seq<Raw>) {
    exists k :: 0 <= k < |slots| && slots[k][0] == 0
  }

  /** Decoded live entries up to the end mark. */
  function Entries(slots: seq<Raw>): seq<Dirent> {
    if slots == [] || slots[0][0] == 0 then []
    else
      var e := Decode(slots[0]);
      (if e.Some? then [e.value] else []) + Entries(slots[1..])
  }

  /** A single slot lists its entry, unless it is the end mark or decodes to nothing. */
  lemma OneSlot(raw: Raw)
    ensures Entries([raw]) == if raw[0] != 0 && Decode(raw).Some? then [Decode(raw).value] else []
  {
    hide Decode;
    assert [raw][1..] == [];
  }

  lemma {:induction false} EntriesAppend(a: seq<Raw>, b: seq<Raw>)
    ensures Entries(a + b) == if Ended(a) then Entries(a) else Entries(a) + Entries(b)
    decreases |a|
  {
    hide Decode, Ended, Entries;
    EntriesStep(a);
    EntriesStep(a + b);
    if a == [] {
      EndedNothing();
      assert a + b == b;
    } else {
      assert (a + b)[1..] == a[1..] + b && (a + b)[0] == a[0];
      assert a == a[..1] + a[1..];
      EndedAppend(a[..1], a[1..]);
      EntriesAppend(a[1..], b);
    }
  }

  lemma EntriesStep(slots: seq<Raw>)
    ensures Entries(slots)
            == if slots == [] || slots[0][0] == 0 then []
               else (if Decode(slots[0]).Some? then [Decode(slots[0]).value] else []) + Entries(slots[1..])
  {
    hide Decode;
  }

  lemma EndedNothing()
    ensures !Ended([])
  {
  }

  lemma EndedAppend(a: seq<Raw>, b: seq<Raw>)
    ensures Ended(a + b) <==> Ended(a) || Ended(b)
    ensures |a| == 1 ==> (Ended(a) <==> a[0][0] == 0)
  {
    forall k | 0 <= k < |b| ensures b[k] == (a + b)[|a| + k] {}
    forall k | 0 <= k < |a| ensures a[k] == (a + b)[k] {}
  }

  /** Live entries of a directory, and how its walk ends if nothing stops it before. */
  datatype Listing = Listing(entries: seq<Dirent>, status: Status)

  /** The listing seen from a cluster with some budget of clusters left. */
  function ListFrom(d: Medium, g: Geometry, cluster: Word, budget: nat): Listing
    requires g.bytesPerSector != 0
  {
    var slots := ChainSlots(d, g, Visited(d, g, cluster, budget));
    Listing(Entries(slots), if Ended(slots) then OK else WalkEnd(d, g, cluster, budget))
  }

  function ListDirectory(d: Medium, g: Geometry, first: Word): Listing
    requires g.bytesPerSector != 0
  {
    if !ValidCluster(g, first) then Listing([], EBADFS) else ListFrom(d, g, first, g.clusterCount)
  }

  /** A listing from a cluster is that cluster's entries and, without an end mark in it, the rest of the chain's. */
  lemma ListOneCluster(d: Medium, g: Geometry, cluster: Word, budget: nat)
    requires g.bytesPerSector != 0 && budget > 0
    ensures var slots, link := ClusterSlots(d, g, cluster), LinkOf(d, g, cluster);
            ListFrom(d, g, cluster, budget)
            == if Ended(slots) then Listing(Entries(slots), OK)
               else
                 match link
                 case Next(x) =>
                   var rest := ListFrom(d, g, x, budget - 1);
                   Listing(Entries(slots) + rest.entries, rest.status)
                 case End => Listing(Entries(slots), OK)
                 case Bad => Listing(Entries(slots), EBADFS)
  {
    hide LinkOf, ClusterSlots;
    var slots, link := ClusterSlots(d, g, cluster), LinkOf(d, g, cluster);
    var visited := Visited(d, g, cluster, budget);
    var rest := ChainSlots(d, g, visited[1..]);
    EntriesAppend(slots, rest);
    EndedAppend(slots, rest);
    assert visited[0] == cluster;
    match link
    case Next(x) => assert visited[1..] == Visited(d, g, x, budget - 1);
    case _ => assert visited[1..] == [] && Entries(slots) + [] == Entries(slots);
  }

  /**
   With no end mark, the listing ends in ELOOP exactly when the chain is
   cyclic; with one it ends well whatever the chain does later.
   */
  lemma LoopsIffCyclic(d: Medium, g: Geometry, first: Word)
    requires g.bytesPerSector != 0 && ValidCluster(g, first)
    ensures var slots := ChainSlots(d, g, Visited(d, g, first, g.clusterCount));
            && (!Ended(slots) ==> (ListDirectory(d, g, first).status == ELOOP <==> Cyclic(d, g, first)))
            && (Ended(slots) ==> ListDirectory(d, g, first).status == OK)
  {
    WalkLoopsIffCyclic(d, g, first);
  }

  /**
   A directory without an end mark ends as its last table entry says: well from
   0x0ffffff8 up, and with EBADFS for any other number that is no cluster.
   */
  lemma FullDirectoryEnds(d: Medium, g: Geometry, first: Word, n: nat)
    requires g.bytesPerSector != 0 && n < g.clusterCount && Follow(d, g, first, n).Some?
    requires !Ended(ChainSlots(d, g, Visited(d, g, first, g.clusterCount)))
    ensures var value := TableEntry(d, g, Follow(d, g, first, n).value) % 0x1000_0000;
            && (value >= 0x0fff_fff8 ==> ListDirectory(d, g, first).status == OK)
            && (value < 2 || g.clusterCount + 2 <= value < 0x0fff_fff8 || 0x0fff_fff0 <= value < 0x0fff_fff8 ==>
                  ListDirectory(d, g, first).status == EBADFS)
  {
    hide TableEntry, LinkOf, Follow, Visited, ChainSlots, Ended;
    var last := Follow(d, g, first, n).value;
    FollowPrefix(d, g, first, 0, n);
    StartsThere(d, g, first);
    EntryMeans(d, g, last);
    if !LinkOf(d, g, last).Next? {
      WalkEndsAt(d, g, first, g.clusterCount, n);
    }
  }

  lemma StartsThere(d: Medium, g: Geometry, first: Word)
    requires g.bytesPerSector != 0 && Follow(d, g, first, 0).Some?
    ensures ValidCluster(g, first)
  {
  }

  // ------------------------------------------------------------- callbacks

  /** Calling cb on entries in order until it asks to stop: its final state, and whether it stopped. */
  function FoldUntil<S>(entries: seq<Dirent>, cb: (S, Dirent) -> (S, bool), s: S): (S, bool) {
    if entries == [] then (s, false)
    else
      var (s', stop) := cb(s, entries[0]);
      if stop then (s', true) else FoldUntil(entries[1..], cb, s')
  }

  lemma {:induction false} FoldAppend<S>(a: seq<Dirent>, b: seq<Dirent>, cb: (S, Dirent) -> (S, bool), s: S)
    ensures FoldUntil(a + b, cb, s)
            == var (s', stop) := FoldUntil(a, cb, s); if stop then (s', true) else FoldUntil(b, cb, s')
    decreases |a|
  {
    if a == [] {
      assert a + b == b;
    } else {
      assert (a + b)[1..] == a[1..] + b;
      FoldAppend(a[1..], b, cb, cb(s, a[0]).0);
    }
  }

  /** What scanning a listing with a callback gives: a stop is success. */
  function Scanned<S>(l: Listing, cb: (S, Dirent) -> (S, bool), s: S): (Status, S) {
    var (s', stop) := FoldUntil(l.entries, cb, s);
    (if stop then OK else l.status, s')
  }

  // ------------------------------------------------------------ searching

  predicate HasName(entries: seq<Dirent>, target: seq<Byte>) {
    exists k :: 0 <= k < |entries| && SameName(entries[k].name, target)
  }

  /** e is the first entry whose name is target up to case. */
  predicate IsFirstNamed(entries: seq<Dirent>, target: seq<Byte>, e: Dirent) {
    exists k :: 0 <= k < |entries| && e == entries[k] && SameName(entries[k].name, target)
                && forall j :: 0 <= j < k ==> !SameName(entries[j].name, target)
  }

  function FirstNamed(entries: seq<Dirent>, target: seq<Byte>): (r: Option<Dirent>)
    ensures if r.Some? then IsFirstNamed(entries, target, r.value) else !HasName(entries, target)
  {
    if entries == [] then None
    else if SameName(entries[0].name, target) then Some(entries[0])
    else
      FirstNamedShift(entries, target);
      FirstNamed(entries[1..], target)
  }

  lemma FirstNamedShift(entries: seq<Dirent>, target: seq<Byte>)
    requires entries != [] && !SameName(entries[0].name, target)
    ensures HasName(entries, target) ==> HasName(entries[1..], target)
    ensures forall e :: IsFirstNamed(entries[1..], target, e) ==> IsFirstNamed(entries, target, e)
  {
    hide SameName;
    var rest := entries[1..];
    if HasName(entries, target) {
      var k :| 0 <= k < |entries| && SameName(entries[k].name, target);
      assert rest[k - 1] == entries[k];
    }
    forall e | IsFirstNamed(rest, target, e) ensures IsFirstNamed(entries, target, e) {
      var k :| 0 <= k < |rest| && e == rest[k] && SameName(rest[k].name, target)
               && forall j :: 0 <= j < k ==> !SameName(rest[j].name, target);
      assert entries[k + 1] == e;
      forall j | 0 <= j < k + 1 ensures !SameName(entries[j].name, target) {
        if j > 0 { assert rest[j - 1] == entries[j]; }
      }
    }
  }
}
