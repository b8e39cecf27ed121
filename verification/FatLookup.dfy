/** Resolving a path: one directory search per component. */
module FatLookup {
  import opened Options
  import opened Machine
  import opened Disk
  import opened FatFormat
  import opened FatNames
  import opened FatPath
  import opened FatDirectory

  datatype Outcome = Found(entry: Dirent) | Failed(status: Status)

  const DIRECTORY: Byte := 0x10
  const DOT_NAME: seq<Byte> := [DOT]

  /** The callback lookup scans with: stop at the first entry of that name. */
  function FindCallback(target: seq<Byte>): (Option<Dirent>, Dirent) -> (Option<Dirent>, bool) {
    (found: Option<Dirent>, e: Dirent) => if SameName(e.name, target) then (Some(e), true) else (found, false)
  }

  /** Scanning with that callback finds the first entry of the name, if any. */
  lemma {:induction false} FindCallbackFinds(entries: seq<Dirent>, target: seq<Byte>)
    ensures FoldUntil(entries, FindCallback(target), None)
            == (FirstNamed(entries, target), FirstNamed(entries, target).Some?)
  {
    if entries != [] {
      FindCallbackFinds(entries[1..], target);
    }
  }

  /** Searching one directory: a match wins over anything wrong further along its chain. */
  function Search(l: Listing, target: seq<Byte>): Outcome {
    var match' := FirstNamed(l.entries, target);
    if match'.Some? then Found(match'.value)
    else if l.status != OK then Failed(l.status)
    else Failed(ENOTFOUND)
  }

  /** The entry lookup makes up for the root directory. */
  function RootEntry(cluster: Word): Dirent {
    Dirent([], DIRECTORY, 0, cluster)
  }

  /** What lookup finds for the remaining components from a directory. */
  function Resolve(d: Medium, g: Geometry, directory: Word, parts: seq<Part>): Outcome
    requires g.bytesPerSector != 0
    decreases |parts|
  {
    if parts == [] then
      if directory == g.rootCluster then Found(RootEntry(directory)) else Failed(ENOTFOUND)
    else if parts[0] == Overlong then Failed(EINVAL)
    else if SameName(parts[0].name, DOT_NAME) then Resolve(d, g, directory, parts[1..])
    else
      match Search(ListDirectory(d, g, directory), parts[0].name)
      case Failed(status) => Failed(status)
      case Found(e) =>
        if parts[1..] == [] then Found(e)
        else if !IsDirectory(e) then Failed(ENOTDIR)
        else if !ValidCluster(g, e.firstCluster) then Failed(EBADFS)
        else Resolve(d, g, e.firstCluster, parts[1..])
  }

  function Lookup(d: Medium, g: Geometry, path: seq<Byte>): Outcome
    requires g.bytesPerSector != 0
  {
    Resolve(d, g, g.rootCluster, Parts(path))
  }

  /** What the scan with that callback tells about the search. */
  lemma SearchByScan(l: Listing, target: seq<Byte>, status: Status, found: Option<Dirent>)
    requires (status, found) == Scanned(l, FindCallback(target), None)
    ensures Search(l, target)
            == if status != OK then Failed(status) else if found == None then Failed(ENOTFOUND) else Found(found.value)
  {
    FindCallbackFinds(l.entries, target);
  }

  // ------------------------------------------------------------ properties

  /** Where walking down all components as directories leads, or why it stops. */
  datatype Place = Directory(cluster: Word) | Stopped(status: Status)

  function Descend(d: Medium, g: Geometry, directory: Word, parts: seq<Part>): Place
    requires g.bytesPerSector != 0
    decreases |parts|
  {
    if parts == [] then Directory(directory)
    else if parts[0] == Overlong then Stopped(EINVAL)
    else if SameName(parts[0].name, DOT_NAME) then Descend(d, g, directory, parts[1..])
    else
      match Search(ListDirectory(d, g, directory), parts[0].name)
      case Failed(status) => Stopped(status)
      case Found(e) =>
        if !IsDirectory(e) then Stopped(ENOTDIR)
        else if !ValidCluster(g, e.firstCluster) then Stopped(EBADFS)
        else Descend(d, g, e.firstCluster, parts[1..])
  }

  /** Resolving is descending through all but the last components and resolving those there. */
  lemma {:induction false} ResolveAfterDescent(d: Medium, g: Geometry, directory: Word, a: seq<Part>, b: seq<Part>)
    requires g.bytesPerSector != 0 && b != []
    ensures Resolve(d, g, directory, a + b)
            == match Descend(d, g, directory, a)
               case Directory(cluster) => Resolve(d, g, cluster, b)
               case Stopped(status) => Failed(status)
    decreases |a|
  {
    hide ListDirectory, Search, SameName, IsDirectory;
    if a == [] {
      assert a + b == b;
    } else {
      assert (a + b)[1..] == a[1..] + b && (a + b)[0] == a[0];
      if a[0] != Overlong {
        if SameName(a[0].name, DOT_NAME) {
          ResolveAfterDescent(d, g, directory, a[1..], b);
        } else {
          match Search(ListDirectory(d, g, directory), a[0].name)
          case Failed(_) =>
          case Found(e) => ResolveAfterDescent(d, g, e.firstCluster, a[1..], b);
        }
      }
    }
  }

  lemma {:induction false} DescendAppend(d: Medium, g: Geometry, directory: Word, a: seq<Part>, b: seq<Part>)
    requires g.bytesPerSector != 0
    ensures Descend(d, g, directory, a + b)
            == match Descend(d, g, directory, a)
               case Directory(cluster) => Descend(d, g, cluster, b)
               case Stopped(status) => Stopped(status)
    decreases |a|
  {
    hide ListDirectory, Search, SameName, IsDirectory;
    if a == [] {
      assert a + b == b;
    } else {
      assert (a + b)[1..] == a[1..] + b && (a + b)[0] == a[0];
      if a[0] != Overlong {
        if SameName(a[0].name, DOT_NAME) {
          DescendAppend(d, g, directory, a[1..], b);
        } else {
          match Search(ListDirectory(d, g, directory), a[0].name)
          case Failed(_) =>
          case Found(e) => DescendAppend(d, g, e.firstCluster, a[1..], b);
        }
      }
    }
  }

  /** Where a further component leads from the place before it. */
  ghost predicate Enters(d: Medium, g: Geometry, before: Place, name: seq<Byte>, after: Place)
    requires g.bytesPerSector != 0
  {
    match before
    case Stopped(status) => after == Stopped(status)
    case Directory(cluster) =>
      var l := ListDirectory(d, g, cluster);
      if !HasName(l.entries, name) then after == Stopped(if l.status == OK then ENOTFOUND else l.status)
      else exists e :: IsFirstNamed(l.entries, name, e) && after == Entered(g, e)
  }

  function Entered(g: Geometry, e: Dirent): Place {
    if e.attributes / 16 % 2 == 0 then Stopped(ENOTDIR)
    else if e.firstCluster < 2 || e.firstCluster >= g.clusterCount + 2 then Stopped(EBADFS)
    else Directory(e.firstCluster)
  }

  /**
   One more component: the first entry of its name must be a directory with a
   valid first cluster, which is then where the path leads.
   */
  lemma DescentEnters(d: Medium, g: Geometry, directory: Word, a: seq<Part>, name: seq<Byte>)
    requires g.bytesPerSector != 0 && !SameName(name, DOT_NAME)
    ensures Enters(d, g, Descend(d, g, directory, a), name, Descend(d, g, directory, a + [Name(name)]))
  {
    DescendAppend(d, g, directory, a, [Name(name)]);
    hide Descend, SameName, ListDirectory, HasName, IsFirstNamed;
    if Descend(d, g, directory, a).Directory? {
      OneStep(d, g, Descend(d, g, directory, a).cluster, name);
    }
  }

  lemma OneStep(d: Medium, g: Geometry, cluster: Word, name: seq<Byte>)
    requires g.bytesPerSector != 0 && !SameName(name, DOT_NAME)
    ensures Enters(d, g, Directory(cluster), name, Descend(d, g, cluster, [Name(name)]))
  {
    hide ListDirectory, SameName, IsDirectory;
    var entries := ListDirectory(d, g, cluster).entries;
    var found := FirstNamed(entries, name);
    if found.Some? {
      DirectoryBit(found.value);
      assert IsFirstNamed(entries, name, found.value) && HasName(entries, name);
      assert Descend(d, g, cluster, [Name(name)]) == Entered(g, found.value);
    }
  }

  /** A path of separators only, or of nothing, is the root directory. */
  lemma {:induction false} RootIsFound(d: Medium, g: Geometry, path: seq<Byte>)
    requires g.bytesPerSector != 0 && forall i :: 0 <= i < |path| ==> path[i] == 0x2F || path[i] == 0x5C
    ensures Lookup(d, g, path) == Found(Dirent([], 0x10, 0, g.rootCluster))
  {
    if path != [] {
      RootIsFound(d, g, path[1..]);
      hide Resolve;
    }
  }

  lemma DotIsDot()
    ensures SameName(DOT_NAME, DOT_NAME)
  {
  }

  /** A "." that is not last changes nothing. */
  lemma InnerDotIgnored(d: Medium, g: Geometry, directory: Word, a: seq<Part>, b: seq<Part>)
    requires g.bytesPerSector != 0 && b != []
    ensures Resolve(d, g, directory, a + [Name(DOT_NAME)] + b) == Resolve(d, g, directory, a + b)
  {
    DotIsDot();
    hide Resolve, Descend, SameName;
    assert a + [Name(DOT_NAME)] + b == a + ([Name(DOT_NAME)] + b);
    ResolveAfterDescent(d, g, directory, a, [Name(DOT_NAME)] + b);
    ResolveAfterDescent(d, g, directory, a, b);
    forall c: Word ensures Resolve(d, g, c, [Name(DOT_NAME)] + b) == Resolve(d, g, c, b) {
      DotFirst(d, g, c, b);
    }
  }

  /** On paths: "/./" with a component after it is "/". */
  lemma DotBetweenSeparators(d: Medium, g: Geometry, a: seq<Byte>, c1: Byte, c2: Byte, b: seq<Byte>)
    requires g.bytesPerSector != 0 && Separator(c1) && Separator(c2) && Parts(b) != []
    ensures Lookup(d, g, a + [c1, DOT, c2] + b) == Lookup(d, g, a + [c1] + b)
  {
    hide Parts, Resolve, Separator;
    DotPart(c2, b);
    SeparatorSplits(a, c1, DOT_NAME + [c2] + b);
    SeparatorSplits(a, c1, b);
    assert a + [c1] + (DOT_NAME + [c2] + b) == a + [c1, DOT, c2] + b;
    if Overlong !in Parts(a) {
      InnerDotIgnored(d, g, g.rootCluster, Parts(a), Parts(b));
      assert Parts(a) + [Name(DOT_NAME)] + Parts(b) == Parts(a) + ([Name(DOT_NAME)] + Parts(b));
    }
  }

  lemma DotPart(c: Byte, b: seq<Byte>)
    requires Separator(c)
    ensures Parts(DOT_NAME + [c] + b) == [Name(DOT_NAME)] + Parts(b)
  {
    SeparatorSplits(DOT_NAME, c, b);
    RunLengthIs(DOT_NAME, 1);
    assert DOT_NAME[..1] == DOT_NAME && DOT_NAME[1..] == [];
    assert UpperAll(DOT_NAME) == DOT_NAME;
    assert Parts(DOT_NAME) == [Name(DOT_NAME)];
  }

  lemma DotFirst(d: Medium, g: Geometry, c: Word, b: seq<Part>)
    requires g.bytesPerSector != 0
    ensures Resolve(d, g, c, [Name(DOT_NAME)] + b) == Resolve(d, g, c, b)
  {
    DotIsDot();
    assert ([Name(DOT_NAME)] + b)[1..] == b;
  }

  /** A final "." resolves exactly when the components before it lead back to the root directory's cluster. */
  lemma FinalDot(d: Medium, g: Geometry, a: seq<Part>)
    requires g.bytesPerSector != 0
    ensures Resolve(d, g, g.rootCluster, a + [Name(DOT_NAME)])
            == match Descend(d, g, g.rootCluster, a)
               case Directory(cluster) =>
                 if cluster == g.rootCluster then Found(RootEntry(g.rootCluster)) else Failed(ENOTFOUND)
               case Stopped(status) => Failed(status)
  {
    hide Descend, SameName;
    ResolveAfterDescent(d, g, g.rootCluster, a, [Name(DOT_NAME)]);
    forall c: Word ensures Resolve(d, g, c, [Name(DOT_NAME)]) == Resolve(d, g, c, []) {
      assert [Name(DOT_NAME)] + [] == [Name(DOT_NAME)];
      DotFirst(d, g, c, []);
    }
  }

  /** The outcome for a last component in the place the others lead to. */
  ghost predicate LastComponent(d: Medium, g: Geometry, place: Place, name: seq<Byte>, r: Outcome)
    requires g.bytesPerSector != 0
  {
    match place
    case Stopped(status) => r == Failed(status)
    case Directory(cluster) =>
      var l := ListDirectory(d, g, cluster);
      if HasName(l.entries, name) then r.Found? && IsFirstNamed(l.entries, name, r.entry)
      else r == Failed(if l.status == OK then ENOTFOUND else l.status)
  }

  /**
   A last component other than "." is found exactly when the directory the
   others lead to lists it, and then it is the first entry there of that name.
   */
  lemma LastComponentIsFirstMatch(d: Medium, g: Geometry, a: seq<Part>, name: seq<Byte>)
    requires g.bytesPerSector != 0 && !SameName(name, DOT_NAME)
    ensures LastComponent(d, g, Descend(d, g, g.rootCluster, a), name, Resolve(d, g, g.rootCluster, a + [Name(name)]))
  {
    ResolveAfterDescent(d, g, g.rootCluster, a, [Name(name)]);
    hide Descend, SameName, ListDirectory, HasName, IsFirstNamed;
    if Descend(d, g, g.rootCluster, a).Directory? {
      LastNamed(d, g, Descend(d, g, g.rootCluster, a), name);
    }
  }

  lemma LastNamed(d: Medium, g: Geometry, place: Place, name: seq<Byte>)
    requires g.bytesPerSector != 0 && !SameName(name, DOT_NAME) && place.Directory?
    ensures LastComponent(d, g, place, name, Resolve(d, g, place.cluster, [Name(name)]))
  {
    hide ListDirectory, SameName;
    var entries := ListDirectory(d, g, place.cluster).entries;
    var found := FirstNamed(entries, name);
    if found.Some? {
      assert IsFirstNamed(entries, name, found.value) && HasName(entries, name);
    }
  }

  /** Paths that differ in the case of ASCII letters only have one outcome. */
  lemma LookupIgnoresCase(d: Medium, g: Geometry, p: seq<Byte>, q: seq<Byte>)
    requires g.bytesPerSector != 0 && |p| == |q|
    requires forall i :: 0 <= i < |p| ==>
               || p[i] == q[i]
               || (0x41 <= p[i] <= 0x5A && q[i] == p[i] + 0x20)
               || (0x41 <= q[i] <= 0x5A && p[i] == q[i] + 0x20)
    ensures Lookup(d, g, p) == Lookup(d, g, q)
  {
    hide Resolve, Parts;
    assert Folded(p) == Folded(q);
    FoldingKeepsParts(p);
    FoldingKeepsParts(q);
  }

  /**
   Lookup does not depend on which separators are written, on repeated,
   leading or trailing ones, or on the case of letters.
   */
  lemma LookupIgnoresSpelling(d: Medium, g: Geometry, path: seq<Byte>, c1: Byte, c2: Byte, rest: seq<Byte>)
    requires g.bytesPerSector != 0 && Separator(c1) && Separator(c2)
    ensures Lookup(d, g, Folded(path)) == Lookup(d, g, path)
    ensures Lookup(d, g, [c1] + path) == Lookup(d, g, path)
    ensures Lookup(d, g, path + [c1]) == Lookup(d, g, path)
    ensures Lookup(d, g, path + [c1] + [c2] + rest) == Lookup(d, g, path + [c1] + rest)
  {
    FoldingKeepsParts(path);
    ExtraSeparators(path, c1, c2, rest);
    ExtraSeparators(path, c1, c2, path);
  }
}
