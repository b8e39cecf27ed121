/**
 Where the kernel's pointers lead.  With paging on, the kernel stores through
 the window that maps the first 16 MiB to itself; a user process's mappings
 replace two of its slots.  Which creations and dispatches stay within the
 pages that are reached is characterised here, page by page.
 */
module Pointers {
  import opened Options
  import opened Machine
  import opened Memory
  import opened Pmm
  import opened Paging
  import opened Process
  import opened Scheduler
  import opened Runs
  import opened Creation
  import opened Dispatching

  /** A directory of the system: the kernel's or that of a slot in use. */
  ghost predicate IsDirectory(l: Layout, s: System, directory: Word) {
    directory == l.pageDirectory || exists i :: InUse(s.t, i) && directory == s.t.slots[i].directory
  }

  lemma DirectoryHasWindow(l: Layout, s: System, directory: Word, user: bool)
    requires LayoutOk(l) && TableOk(s.t) && WindowOk(l, s) && DirectoryOk(l, s.t.mem, directory, user)
    ensures HasWindow(s.t.mem, directory / 0x1000, Tb(l))
    ensures forall p :: 0 <= p < 4096 ==> Shown(s.t.mem, Tb(l), p) == WindowPage(s, p)
  {
    var m, dir := s.t.mem, directory / 0x1000;
    hide MakeEntry, Present, Frame, UserBit;
    forall i | 0 <= i < 4 ensures Present(Entry(m, dir, i)) && Frame(Entry(m, dir, i)) == Tb(l) + i {
      assert Entry(m, dir, i) == SlotWord(l, dir, user, i);
      EntryDigits(Tb(l) + i, user && i == 1);
    }
    forall i | 4 <= i < 1023 ensures !Present(Entry(m, dir, i)) {
      assert Entry(m, dir, i) == SlotWord(l, dir, user, i) == 0;
      ZeroAbsent();
    }
    assert Entry(m, dir, 1023) == SlotWord(l, dir, user, 1023);
    EntryDigits(dir, false);
    forall p | 0 <= p < 4096
      ensures Present(WindowEntry(l, m, p)) && Frame(WindowEntry(l, m, p)) == WindowPage(s, p)
    {
      assert WindowEntry(l, m, p) == MakeEntry(WindowPage(s, p), Redirected(s, p));
      EntryDigits(WindowPage(s, p), Redirected(s, p));
    }
    forall t, j | Tb(l) <= t < Tb(l) + 4 && 0 <= j < 1024 ensures Present(Entry(m, t, j)) {
      var p := 1024 * (t - Tb(l)) + j;
      DivModUnique(p, 1024, t - Tb(l), j);
      assert WindowEntry(l, m, p) == Entry(m, t, j);
    }
  }

  lemma ZeroAbsent()
    ensures !Present(0)
  {
  }

  /** Every directory of a reachable state has the window, whichever is loaded. */
  lemma EveryDirectory(l: Layout, s: System, directory: Word)
    requires Inv(l, s) && IsDirectory(l, s, directory)
    ensures 0 < directory / 0x1000 < 4096 && directory / 0x1000 !in s.t.pool.free
    ensures !(Tb(l) <= directory / 0x1000 < Tb(l) + 4)
    ensures HasWindow(s.t.mem, directory / 0x1000, Tb(l))
    ensures forall p :: 0 <= p < 4096 ==> Shown(s.t.mem, Tb(l), p) == WindowPage(s, p)
  {
    hide FramesOk, DirectoryOk, LatestOk, PagesDisjoint, PidsOk, HasWindow, WindowOk;
    if directory == l.pageDirectory {
      DirectoryHasWindow(l, s, directory, false);
    } else {
      var i :| InUse(s.t, i) && directory == s.t.slots[i].directory;
      assert directory / 0x1000 in PagesOf(s.t.slots[i]) && Taken(l, s.t.pool, PagesOf(s.t.slots[i]));
      DirectoryHasWindow(l, s, directory, s.t.slots[i].user);
    }
  }

  lemma LoadedIsDirectory(l: Layout, s: System)
    requires Inv(l, s)
    ensures IsDirectory(l, s, s.cr3)
  {
    hide FramesOk, MapsOk, LatestOk, PagesDisjoint, PidsOk;
    if s.t.running != 0 {
      assert InUse(s.t, s.t.running);
    }
  }

  /**
   In every reachable state, whichever directory is loaded, a kernel pointer
   to page p leads to page p exactly when p is below 4096 and, once a user
   process was created, is not 0x400 or 0x7ff unless the newest user process
   has it as its code or its user stack page.
   */
  lemma KernelReaches(l: Layout, s: System, directory: Word, p: nat)
    requires Inv(l, s) && IsDirectory(l, s, directory) && p < MAX_FRAMES
    ensures Reaches(s.t.mem, directory, p) <==>
            && p < 4096
            && (p == 0x400 ==> s.users == 0 || s.latestCode == 0x400)
            && (p == 0x7ff ==> s.users == 0 || s.latestStack == 0x7ff)
    ensures Reaches(s.t.mem, directory, p) <==> InWindow(s, p)
    ensures OffTables(s.t.mem, directory, p) <==> p != directory / 0x1000 && !(Tb(l) <= p < Tb(l) + 4)
  {
    EveryDirectory(l, s, directory);
    hide Inv, IsDirectory, HasWindow, Reaches, OffTables, Shown;
    ReachesIff(s.t.mem, directory, Tb(l), p);
  }

  /** A kernel pointer between 16 MiB and the recursive slot is a page fault. */
  lemma KernelFaultsAbove(l: Layout, s: System, directory: Word, va: Word)
    requires Inv(l, s) && IsDirectory(l, s, directory) && 0x100_0000 <= va < 0xffc0_0000
    ensures directory / 0x1000 < MAX_FRAMES && Translate(s.t.mem, directory / 0x1000, va) == Fault
  {
    EveryDirectory(l, s, directory);
    hide Inv, IsDirectory, Present, Entry;
    assert 4 <= DirIndex(va) < 1023;
  }

  /** A page both windows show at its own place, whoever the newest user process is. */
  predicate Clear(p: nat) {
    p < 4096 && p != CODE_SLOT && p != STACK_SLOT
  }

  // --------------------------------------------------- sound creations

  lemma FreePagesOffTables(l: Layout, s: System, p: nat)
    requires Inv(l, s) && p in s.t.pool.free
    ensures p < MAX_FRAMES && OffTables(s.t.mem, s.cr3, p)
  {
    LoadedIsDirectory(l, s);
    EveryDirectory(l, s, s.cr3);
    KernelReaches(l, s, s.cr3, p);
  }

  /** s' is s after a kernel thread got slot i and pages p (stack) and q (directory). */
  ghost predicate HasKernelPages(s: System, s': System, i: nat, p: nat, q: nat) {
    && i < |s.t.slots| == |s'.t.slots| && s'.t.slots == s.t.slots[i := s'.t.slots[i]]
    && s'.t.slots[i].state == Ready && !s'.t.slots[i].user && s'.t.slots[i].pid == s.t.nextPid
    && s'.t.slots[i].stackBase == 0x1000 * p && s'.t.slots[i].directory == 0x1000 * q
    && s'.t.slots[i].context == TopFrame(s'.t.slots[i].stackBase)
    && s'.t.pool.free == s.t.pool.free - {p, q} && s'.t.running == s.t.running && s'.cr3 == s.cr3
    && s'.kernels == s.kernels + 1 && s'.users == s.users
  }

  /**
   A process_create that has its resources takes the two lowest free pages, and
   is sound exactly when both are where the kernel's pointers lead.
   */
  lemma KernelCreationSound(l: Layout, s: System, entry: Word, argument: Word)
    requires Inv(l, s) && Created(l, s.t, entry, argument).1.Some?
    ensures FirstReusable(s.t.slots, 1).Some? && |Lowest(s.t.pool.free, 2)| == 2
    ensures var i, pages := FirstReusable(s.t.slots, 1).value, Lowest(s.t.pool.free, 2);
            var s' := Effect(l, s, CreateKernel(entry, argument));
            && HasKernelPages(s, s', i, pages[0], pages[1])
            && (Sound(l, s, CreateKernel(entry, argument)) <==> InWindow(s, pages[0]) && InWindow(s, pages[1]))
  {
    hide Inv, ReachOk, KernelMemory, InWindow, DirectoryServed, Ordinary, DirectoryOk, LayoutOk, Least, Lowest;
    hide Splice, WithFrame, NewDirectory, KernelFrame, FirstReusable, Allocated, TopFrame;
    Basics(l, s);
    CreatedHas(l, s.t, entry, argument);
    var p, q := CreatedShape(l, s.t, entry, argument);
    hide Created;
    var i := FirstReusable(s.t.slots, 1).value;
    KernelServed(l, s, p, q);
    KernelReachAfter(l, s, entry, argument, i, p, q);
  }

  lemma Basics(l: Layout, s: System)
    requires Inv(l, s)
    ensures Shape(l, s) && TableOk(s.t) && LayoutOk(l) && PoolAbove(l, s.t.pool) && |s.saved| == |s.t.slots|
    ensures DirectoryOk(l, s.t.mem, l.pageDirectory, false)
  {
  }

  lemma CreatedHas(l: Layout, t: Table, entry: Word, argument: Word)
    requires TableOk(t) && Pd(l) < MAX_FRAMES && Created(l, t, entry, argument).1.Some?
    ensures entry != 0 && FirstReusable(t.slots, 1).Some? && |t.pool.free| >= 2
  {
  }

  lemma KernelServed(l: Layout, s: System, p: nat, q: nat)
    requires Inv(l, s) && p in s.t.pool.free && q in s.t.pool.free - {p} && Least(s.t.pool.free - {p}) == q
    ensures p < MAX_FRAMES && Pd(l) < MAX_FRAMES
    ensures DirectoryServed(s.t.pool.(free := s.t.pool.free - {p}), s.t.mem, s.cr3, Pd(l)) <==> InWindow(s, q)
    ensures Ordinary(s.t.mem, s.cr3, p) <==> InWindow(s, p)
  {
    LoadedIsDirectory(l, s);
    FreePagesOffTables(l, s, p);
    FreePagesOffTables(l, s, q);
    KernelReaches(l, s, s.cr3, p);
    KernelReaches(l, s, s.cr3, q);
    KernelReaches(l, s, s.cr3, Pd(l));
    assert InWindow(s, Pd(l));
    hide Inv, OffTables, Reaches, InWindow, IsDirectory;
  }

  lemma KernelReachAfter(l: Layout, s: System, entry: Word, argument: Word, i: nat, p: nat, q: nat)
    requires Inv(l, s) && Created(l, s.t, entry, argument).1.Some? && FirstReusable(s.t.slots, 1) == Some(i)
    requires p < MAX_FRAMES && q < MAX_FRAMES
    requires Created(l, s.t, entry, argument).0.slots == s.t.slots[i := KernelSlot(s.t.nextPid, p, q, entry, argument)]
    ensures ReachOk(Effect(l, s, CreateKernel(entry, argument))) <==> InWindow(s, p) && InWindow(s, q)
  {
    var s' := Effect(l, s, CreateKernel(entry, argument));
    hide Created, FramesOk, MapsOk, LatestOk, PagesDisjoint, PidsOk, SlotsOk, RunningOk, LayoutOk;
    var n := s'.t.slots[i];
    assert n == KernelSlot(s.t.nextPid, p, q, entry, argument);
    assert n.stackBase / 0x1000 == p && n.directory / 0x1000 == q;
    assert InUse(s'.t, i);
    forall j | InUse(s'.t, j) && j != i ensures InUse(s.t, j) && s'.t.slots[j] == s.t.slots[j] {}
    assert forall x: nat :: InWindow(s', x) <==> InWindow(s, x);
  }

  // ------------------------------------------ sound creations, user processes

  /** Outside page d only word j of page table differs. */
  ghost predicate SameBut(m: seq<Word>, m': seq<Word>, d: nat, table: nat, j: nat)
    requires |m| == |m'| == MEM_WORDS
  {
    forall p, k :: 0 <= p < MAX_FRAMES && 0 <= k < 1024 && p != d && (p != table || k != j) ==>
        Entry(m', p, k) == Entry(m, p, k)
  }

  /** A word changed in the second window table shows another page in that one slot. */
  lemma WindowAfter(m: seq<Word>, m': seq<Word>, dir: nat, tables: nat, d: nat, j: nat, f: nat)
    requires |m| == |m'| == MEM_WORDS && dir < MAX_FRAMES && tables + 4 <= MAX_FRAMES && j < 1024 && f < MAX_FRAMES
    requires HasWindow(m, dir, tables) && SameBut(m, m', d, tables + 1, j)
    requires Entry(m', tables + 1, j) == MakeEntry(f, true)
    requires dir != d && !(tables <= dir < tables + 4) && !(tables <= d < tables + 4)
    ensures HasWindow(m', dir, tables)
    ensures forall p :: 0 <= p < 4096 ==> Shown(m', tables, p) == if p == 1024 + j then f else Shown(m, tables, p)
  {
    EntryDigits(f, true);
    hide MakeEntry, Present, Frame, UserBit, Entry;
    forall i | 0 <= i < 1024 ensures Entry(m', dir, i) == Entry(m, dir, i) {}
    forall t, k | tables <= t < tables + 4 && 0 <= k < 1024 ensures Present(Entry(m', t, k)) {
      assert Present(Entry(m, t, k));
    }
    forall p | 0 <= p < 4096 ensures Shown(m', tables, p) == if p == 1024 + j then f else Shown(m, tables, p) {
      SlotNumbers(p, j);
    }
  }

  lemma SlotNumbers(p: nat, j: nat)
    requires p < 4096 && j < 1024
    ensures p / 1024 == 1 && p % 1024 == j <==> p == 1024 + j
  {
    DivModUnique(1024 + j, 1024, 1, j);
  }

  /** What the window shows while process_create_user works with pages p, c, u and d. */
  ghost predicate UserWindows(l: Layout, s: System, p: nat, c: nat, u: nat, d: nat)
    requires Shape(l, s)
  {
    var (pool4, m1, pages) := UserPagesTaken(l, s.t);
    var dir := pages.directory / 0x1000;
    var (pool5, m2) := MapIn(pool4, m1, dir, USER_CODE_ADDRESS, pages.code, true);
    var (pool6, m3) := MapIn(pool5, m2, dir, USER_STACK_TOP - 4096, pages.userStack, true);
    && p < MAX_FRAMES && c < MAX_FRAMES && u < MAX_FRAMES && d < MAX_FRAMES
    && pages == UserPages(0x1000 * p, 0x1000 * c, 0x1000 * u, 0x1000 * d) && dir == d
    && pool5 == pool4 == s.t.pool.(free := s.t.pool.free - {p, c, u, d})
    && SharedTableIn(m1, Tb(l), d) && SharedTableIn(m2, Tb(l), d)
    && HasWindow(m1, s.cr3 / 0x1000, Tb(l)) && HasWindow(m2, s.cr3 / 0x1000, Tb(l))
    && HasWindow(m3, s.cr3 / 0x1000, Tb(l))
    && (forall x :: 0 <= x < 4096 ==> Shown(m1, Tb(l), x) == WindowPage(s, x))
    && (forall x :: 0 <= x < 4096 ==> Shown(m2, Tb(l), x) == if x == CODE_SLOT then c else WindowPage(s, x))
    && (forall x :: 0 <= x < 4096 ==>
        Shown(m3, Tb(l), x) == if x == CODE_SLOT then c else if x == STACK_SLOT then u else x)
  }

  ghost predicate SharedTableIn(m: seq<Word>, tables: nat, d: nat)
    requires |m| == MEM_WORDS && d < MAX_FRAMES
  {
    Present(Entry(m, d, 1)) && Frame(Entry(m, d, 1)) == tables + 1
  }

  lemma SharedSlotOf(l: Layout, m: seq<Word>, d: nat, user: bool)
    requires |m| == MEM_WORDS && d < MAX_FRAMES && LayoutOk(l) && DirectoryOk(l, m, 0x1000 * d, user)
    ensures SharedTableIn(m, Tb(l), d)
  {
    hide MakeEntry, Present, Frame;
    assert 0x1000 * d / 0x1000 == d;
    assert Entry(m, d, 1) == SlotWord(l, d, user, 1);
    EntryDigits(Tb(l) + 1, user);
  }

  lemma UserWindowsHold(l: Layout, s: System) returns (p: nat, c: nat, u: nat, d: nat)
    requires Inv(l, s) && |s.t.pool.free| >= 4
    ensures Lowest(s.t.pool.free, 4) == [p, c, u, d]
    ensures {p, c, u, d} <= s.t.pool.free && p != c && p != u && p != d && c != u && c != d && u != d
    ensures ThreeTaken(s.t.pool) == s.t.pool.(free := s.t.pool.free - {p, c, u})
    ensures d in s.t.pool.free - {p, c, u} && Least(s.t.pool.free - {p, c, u}) == d
    ensures UserWindows(l, s, p, c, u, d)
  {
    hide Inv, HasWindow, DirectoryOk, MapAt, MakeEntry, Splice, DirectoryCopy, Entry, Least, Shown, DirIndex;
    hide TableIndex, Frame, Lowest;
    Basics(l, s);
    LoadedIsDirectory(l, s);
    EveryDirectory(l, s, s.cr3);
    hide IsDirectory;
    p, c, u, d := FourPages(l, s.t);
    FreeAboveTables(l, s, d);
    var pool := s.t.pool.(free := s.t.pool.free - {p, c, u, d});
    var m1 := Splice(s.t.mem, 1024 * d, DirectoryCopy(s.t.mem, Pd(l), d));
    CopyOk(l, s.t.mem, d);
    WindowCopied(l, s, d);
    UserIndexes(c, u);
    OneMapping(l, pool, m1, d, 0, c, false);
    var m2 := MapAt(pool, m1, d, 1, 0, c, true).1;
    WindowAfter(m1, m2, s.cr3 / 0x1000, Tb(l), d, 0, c);
    OneMapping(l, pool, m2, d, 1023, u, true);
    var m3 := MapAt(pool, m2, d, 1, 1023, u, true).1;
    WindowAfter(m2, m3, s.cr3 / 0x1000, Tb(l), d, 1023, u);
    SharedSlotOf(l, m1, d, false);
    SharedSlotOf(l, m2, d, true);
  }

  lemma FreeAboveTables(l: Layout, s: System, d: nat)
    requires LayoutOk(l) && PoolAbove(l, s.t.pool) && d in s.t.pool.free
    ensures !(Tb(l) <= d < Tb(l) + 4)
  {
  }

  /** Copying a directory to a free page changes nothing the loaded window shows. */
  lemma WindowCopied(l: Layout, s: System, d: nat)
    requires Inv(l, s) && d in s.t.pool.free && d < MAX_FRAMES
    ensures var m1 := Splice(s.t.mem, 1024 * d, DirectoryCopy(s.t.mem, Pd(l), d));
            && s.cr3 / 0x1000 != d && !(Tb(l) <= s.cr3 / 0x1000 < Tb(l) + 4)
            && HasWindow(m1, s.cr3 / 0x1000, Tb(l))
            && forall x :: 0 <= x < 4096 ==> Shown(m1, Tb(l), x) == WindowPage(s, x)
  {
    hide Inv, Present, Frame, DirectoryCopy, Splice;
    Basics(l, s);
    LoadedIsDirectory(l, s);
    EveryDirectory(l, s, s.cr3);
    FreeAboveTables(l, s, d);
    PageWritten(s.t.mem, d, DirectoryCopy(s.t.mem, Pd(l), d));
    hide IsDirectory, Entry;
  }

  lemma LoadedPlace(l: Layout, s: System)
    requires Inv(l, s)
    ensures LayoutOk(l) && 0 < s.cr3 / 0x1000 < 4096 && s.cr3 / 0x1000 !in s.t.pool.free
    ensures !(Tb(l) <= s.cr3 / 0x1000 < Tb(l) + 4) && Pd(l) < 0x400 && Tb(l) + 4 <= 0x400
    ensures forall p :: p in s.t.pool.free ==> !(Tb(l) <= p < Tb(l) + 4)
  {
    LoadedIsDirectory(l, s);
    EveryDirectory(l, s, s.cr3);
  }

  /** The accesses of process_create_user in the memories it makes, stack and directory on clear pages. */
  lemma AccessesIff(s: System, cr3: Word, tables: nat, pool: Pool, m1: seq<Word>, m2: seq<Word>, m3: seq<Word>,
                    p: nat, c: nat, u: nat, d: nat)
    requires PoolOk(pool) && |m1| == |m2| == |m3| == MEM_WORDS && tables + 4 <= 0x400
    requires p < MAX_FRAMES && c < MAX_FRAMES && d < MAX_FRAMES && Clear(p) && Clear(d) && c != u
    requires 0 < cr3 / 0x1000 < 4096 && cr3 / 0x1000 !in pool.free + {p, c, d}
    requires d !in pool.free && forall x :: tables <= x < tables + 4 ==> x !in pool.free + {p, c, d}
    requires HasWindow(m1, cr3 / 0x1000, tables) && HasWindow(m2, cr3 / 0x1000, tables)
    requires HasWindow(m3, cr3 / 0x1000, tables)
    requires SharedTableIn(m1, tables, d) && SharedTableIn(m2, tables, d)
    requires forall x :: 0 <= x < 4096 ==> Shown(m1, tables, x) == WindowPage(s, x)
    requires forall x :: 0 <= x < 4096 ==> Shown(m2, tables, x) == if x == CODE_SLOT then c else WindowPage(s, x)
    requires forall x :: 0 <= x < 4096 ==>
               Shown(m3, tables, x) == if x == CODE_SLOT then c else if x == STACK_SLOT then u else x
    ensures MapServed(pool, m1, cr3, d, 1) && MapServed(pool, m2, cr3, d, 1)
    ensures Ordinary(m3, cr3, p)
    ensures Ordinary(m1, cr3, c) && Ordinary(m3, cr3, c) <==> InWindow(s, c) && c != STACK_SLOT
  {
    hide HasWindow, Present, Frame, Entry, Shown, Reaches, OffTables, MapServed, Least;
    MapServedIff(pool, m1, cr3, tables, d, 1);
    MapServedIff(pool, m2, cr3, tables, d, 1);
    ReachesIff(m1, cr3, tables, c);
    ReachesIff(m3, cr3, tables, c);
    ReachesIff(m3, cr3, tables, p);
  }

  /** With stack and directory on clear pages, all accesses are served but perhaps those to the code page. */
  lemma UserServedIff(l: Layout, s: System, p: nat, c: nat, u: nat, d: nat)
    requires Inv(l, s) && UserWindows(l, s, p, c, u, d) && {p, c, u, d} <= s.t.pool.free && Clear(p) && Clear(d)
    requires p != c && p != u && d != c && d != u && c != u && p != d
    ensures Shape(l, s)
    ensures MapsServed(l, s.t, s.cr3) <==> InWindow(s, c) && c != STACK_SLOT
  {
    hide Inv, HasWindow, MapIn, MapServed, LayoutOk, Present, Frame, Entry, Shown, Reaches, OffTables, DirIndex;
    hide TableIndex, Least;
    hide UserPagesTaken, Ordinary, Clear, InWindow, WindowPage;
    Basics(l, s);
    LoadedPlace(l, s);
    UserIndexes(c, u);
    var m1 := UserPagesTaken(l, s.t).1;
    var pool := s.t.pool.(free := s.t.pool.free - {p, c, u, d});
    var m2 := MapIn(pool, m1, d, USER_CODE_ADDRESS, 0x1000 * c, true).1;
    var m3 := MapIn(pool, m2, d, USER_STACK_TOP - 4096, 0x1000 * u, true).1;
    SamePages(p, c, u, d);
    AccessesIff(s, s.cr3, Tb(l), pool, m1, m2, m3, p, c, u, d);
  }

  lemma SamePages(p: nat, c: nat, u: nat, d: nat)
    ensures 0x1000 * p / 0x1000 == p && 0x1000 * c / 0x1000 == c && 0x1000 * u / 0x1000 == u && 0x1000 * d / 0x1000 == d
  {
  }

  /** Every slot in use but i has its stack and its directory on clear pages. */
  ghost predicate OthersClear(t: Table, i: nat) {
    forall j :: InUse(t, j) && j != i ==> Clear(t.slots[j].stackBase / 0x1000) && Clear(t.slots[j].directory / 0x1000)
  }

  /**
   Which process_create_user calls are sound, on the state before: those whose
   stack and directory are to lie on clear pages, whose code page is shown and
   not the one the user stack is about to hide, while every other slot in use
   has its stack and directory on clear pages.
   */
  ghost predicate UserPagesFit(s: System, i: nat, p: nat, c: nat, d: nat) {
    OthersClear(s.t, i) && Clear(p) && Clear(d) && InWindow(s, c) && c != STACK_SLOT
  }

  /**
   A process_create_user that has its resources takes the four lowest free
   pages for stack, code, user stack and directory, and is sound exactly when
   they fit.
   */
  lemma UserCreationSound(l: Layout, s: System, image: Option<seq<Byte>>)
    requires Inv(l, s) && CreatedUser(l, s.t, image).1.Some?
    ensures FirstReusable(s.t.slots, 1).Some? && |Lowest(s.t.pool.free, 4)| == 4
    ensures var i, pages := FirstReusable(s.t.slots, 1).value, Lowest(s.t.pool.free, 4);
            var s' := Effect(l, s, CreateUser(image));
            && HasUserPages(s, s', i, pages[0], pages[1], pages[2], pages[3])
            && (Sound(l, s, CreateUser(image)) <==> UserPagesFit(s, i, pages[0], pages[1], pages[3]))
  {
    hide Inv, CreatedUser, UserWindows, ReachOk, MapsServed, DirectoryServed, LayoutOk, FirstReusable, Effect, Lowest;
    hide HasUserPages, OthersClear, InWindow, Clear;
    Basics(l, s);
    CreatedUserNeeds(l, s.t, image);
    var p, c, u, d := UserWindowsHold(l, s);
    var i, s' := FirstReusable(s.t.slots, 1).value, Effect(l, s, CreateUser(image));
    UserEffectPages(l, s, image, p, c, u, d);
    ReachAfterUser(l, s, s', i, p, c, u, d);
    if ReachOk(s') {
      UserServedIff(l, s, p, c, u, d);
      ThreeServed(l, s, p, c, u, d);
    } else {
      assert !Sound(l, s, CreateUser(image));
    }
  }

  /** s' is s after a user process got slot i and pages p (kernel stack), c, u and d. */
  ghost predicate HasUserPages(s: System, s': System, i: nat, p: nat, c: nat, u: nat, d: nat) {
    && i < |s.t.slots| == |s'.t.slots| && s'.t.slots == s.t.slots[i := s'.t.slots[i]]
    && s'.t.slots[i].state == Ready && s'.t.slots[i].user && s'.t.slots[i].pid == s.t.nextPid == s'.latestUser
    && s'.t.slots[i].stackBase == 0x1000 * p && s'.t.slots[i].directory == 0x1000 * d
    && s'.t.slots[i].codeBase == 0x1000 * c && s'.t.slots[i].userStackBase == 0x1000 * u
    && s'.t.slots[i].context == TopFrame(s'.t.slots[i].stackBase)
    && s'.users == s.users + 1 && s'.latestCode == c && s'.latestStack == u
  }

  lemma UserEffectPages(l: Layout, s: System, image: Option<seq<Byte>>, p: nat, c: nat, u: nat, d: nat)
    requires Shape(l, s) && CreatedUser(l, s.t, image).1.Some? && UserWindows(l, s, p, c, u, d)
    ensures FirstReusable(s.t.slots, 1).Some?
    ensures HasUserPages(s, Effect(l, s, CreateUser(image)), FirstReusable(s.t.slots, 1).value, p, c, u, d)
  {
    UserPagesAre(l, s, p, c, u, d);
    CreatedUserPages(l, s.t, image);
    SamePages(p, c, u, d);
    hide CreatedUser, UserWindows, UserPagesTaken, LayoutOk, FirstReusable;
  }

  /** Where stacks and directories lie once the window shows c and u: slots in use hold no free page. */
  lemma ReachAfterUser(l: Layout, s: System, s': System, i: nat, p: nat, c: nat, u: nat, d: nat)
    requires Inv(l, s) && i >= 1 && HasUserPages(s, s', i, p, c, u, d) && {p, c, u, d} <= s.t.pool.free
    requires p != c && p != u && p != d && c != u && c != d && u != d
    ensures ReachOk(s') <==> OthersClear(s.t, i) && Clear(p) && Clear(d)
  {
    hide Inv, WindowPage;
    Basics(l, s);
    WindowOff(s', p);
    WindowOff(s', d);
    assert 0x1000 * p / 0x1000 == p && 0x1000 * d / 0x1000 == d && InUse(s'.t, i);
    forall j | InUse(s'.t, j) && j != i
      ensures InUse(s.t, j) && s'.t.slots[j] == s.t.slots[j]
      ensures InWindow(s', s.t.slots[j].stackBase / 0x1000) <==> Clear(s.t.slots[j].stackBase / 0x1000)
      ensures InWindow(s', s.t.slots[j].directory / 0x1000) <==> Clear(s.t.slots[j].directory / 0x1000)
    {
      SlotPagesTaken(l, s, j);
      WindowOff(s', s.t.slots[j].stackBase / 0x1000);
      WindowOff(s', s.t.slots[j].directory / 0x1000);
    }
    assert forall j :: InUse(s.t, j) && j != i ==> InUse(s'.t, j);
    hide InWindow, Clear;
  }

  /** A page the newest user process does not have is in the window exactly when it is clear. */
  lemma WindowOff(s: System, p: nat)
    requires s.users > 0 && p != s.latestCode && p != s.latestStack
    ensures InWindow(s, p) <==> Clear(p)
  {
  }

  lemma SlotPagesTaken(l: Layout, s: System, j: nat)
    requires Inv(l, s) && InUse(s.t, j)
    ensures s.t.slots[j].stackBase / 0x1000 !in s.t.pool.free && s.t.slots[j].directory / 0x1000 !in s.t.pool.free
  {
    assert Taken(l, s.t.pool, PagesOf(s.t.slots[j]));
    hide FramesOk, MapsOk, ReachOk, LatestOk, PagesDisjoint, PidsOk;
  }

  lemma UserPagesAre(l: Layout, s: System, p: nat, c: nat, u: nat, d: nat)
    requires Shape(l, s) && UserWindows(l, s, p, c, u, d)
    ensures p < MAX_FRAMES && c < MAX_FRAMES && u < MAX_FRAMES && d < MAX_FRAMES
    ensures UserPagesTaken(l, s.t).2 == UserPages(0x1000 * p, 0x1000 * c, 0x1000 * u, 0x1000 * d)
  {
  }

  lemma CreatedUserPages(l: Layout, t: Table, image: Option<seq<Byte>>)
    requires TableOk(t) && Pd(l) < MAX_FRAMES && CreatedUser(l, t, image).1.Some?
    ensures FirstReusable(t.slots, 1).Some? && |CreatedUser(l, t, image).0.slots| == |t.slots|
    ensures var n, p := CreatedUser(l, t, image).0.slots[FirstReusable(t.slots, 1).value], UserPagesTaken(l, t).2;
            && n.stackBase == p.stack && n.directory == p.directory
            && n.codeBase == p.code && n.userStackBase == p.userStack
            && n.state == Ready && n.user && n.pid == t.nextPid && n.context == TopFrame(p.stack)
    ensures var i, slots := FirstReusable(t.slots, 1).value, CreatedUser(l, t, image).0.slots;
            slots == t.slots[i := slots[i]]
  {
    hide UserPagesTaken, MapIn, Splice, LoadedPage, WithFrame, UserFrame;
  }

  lemma ThreeServed(l: Layout, s: System, p: nat, c: nat, u: nat, d: nat)
    requires Inv(l, s) && {p, c, u, d} <= s.t.pool.free && Clear(d)
    requires ThreeTaken(s.t.pool) == s.t.pool.(free := s.t.pool.free - {p, c, u})
    requires d in s.t.pool.free - {p, c, u} && Least(s.t.pool.free - {p, c, u}) == d
    ensures Pd(l) < MAX_FRAMES && DirectoryServed(ThreeTaken(s.t.pool), s.t.mem, s.cr3, Pd(l))
  {
    LoadedPlace(l, s);
    FreePagesOffTables(l, s, d);
    LoadedIsDirectory(l, s);
    KernelReaches(l, s, s.cr3, d);
    KernelReaches(l, s, s.cr3, Pd(l));
    hide Inv, OffTables, Reaches, IsDirectory, LayoutOk;
  }

  // ------------------------------------------------ dispatches, system calls

  /** Every pointer an enabled dispatch follows leads to its page. */
  lemma DispatchServed(l: Layout, s: System, context: Word)
    requires Inv(l, s) && ContextReached(s, context)
    ensures ScheduleServed(l, s.t, s.cr3, context)
  {
    FramePages(context);
    LoadedIsDirectory(l, s);
    KernelReaches(l, s, s.cr3, FirstPage(context));
    KernelReaches(l, s, s.cr3, LastPage(context));
    OwnFrameServed(l, s);
    hide IsDirectory, Reaches, FrameServed, Ordinary, InWindow, MapsOk, FramesOk, ReachOk, LatestOk, PagesDisjoint;
    hide PidsOk;
  }

  lemma OwnFrameServed(l: Layout, s: System)
    requires Inv(l, s)
    ensures var r := s.t.slots[s.t.running];
            var own := if r.bootstrap then BootstrapContext(l) else r.context;
            FrameAddress(own) && FrameServed(s.t.mem, s.cr3, own)
  {
    LoadedIsDirectory(l, s);
    if s.t.running == 0 {
      BootFramePages(l);
      KernelReaches(l, s, s.cr3, FirstPage(BootstrapContext(l)));
      KernelReaches(l, s, s.cr3, LastPage(BootstrapContext(l)));
      EveryDirectory(l, s, s.cr3);
    } else {
      RunningContext(l, s);
      SlotContext(l, s.t, s.t.running);
      StackOffTables(l, s);
      StackFrameServed(s.t.mem, s.cr3, s.t.slots[s.t.running].stackBase / 0x1000);
    }
    hide IsDirectory, Reaches, OffTables, MapsOk, FramesOk, LatestOk, PagesDisjoint, PidsOk, ReachOk, LayoutOk;
    hide BootstrapContext;
  }

  /** Through a slot's own directory the pointer to its context leads to the context's pages. */
  lemma ResumeReached(l: Layout, s: System, i: nat)
    requires Inv(l, s) && (i == 0 || InUse(s.t, i))
    ensures FrameAddress(s.t.slots[i].context)
    ensures FrameReached(s.t.mem, s.t.slots[i].directory, s.t.slots[i].context)
  {
    hide Reaches, OffTables, MapsOk, FramesOk, LatestOk, PagesDisjoint, PidsOk, LayoutOk, BootstrapContext;
    var directory := s.t.slots[i].directory;
    assert IsDirectory(l, s, directory);
    hide IsDirectory;
    if i == 0 {
      BootFramePages(l);
      FramePages(BootstrapContext(l));
      KernelReaches(l, s, directory, FirstPage(BootstrapContext(l)));
      KernelReaches(l, s, directory, LastPage(BootstrapContext(l)));
    } else {
      SlotContext(l, s.t, i);
      var page := s.t.slots[i].stackBase / 0x1000;
      KernelReaches(l, s, directory, page);
      ContextPage(page);
      FramePages(s.t.slots[i].context);
    }
  }

  lemma ContextPage(page: nat)
    requires page < MAX_FRAMES
    ensures FirstPage(TopFrame(0x1000 * page)) == page == LastPage(TopFrame(0x1000 * page))
  {
    TopFrameWords(page);
    DivModUnique(0x1000 * page + 4036, 0x1000, page, 4036);
    DivModUnique(0x1000 * page + 4092, 0x1000, page, 4092);
  }

  lemma StackOffTables(l: Layout, s: System)
    requires Inv(l, s) && InUse(s.t, s.t.running)
    ensures s.t.slots[s.t.running].stackBase / 0x1000 < MAX_FRAMES
    ensures Ordinary(s.t.mem, s.cr3, s.t.slots[s.t.running].stackBase / 0x1000)
  {
    var p := s.t.slots[s.t.running].stackBase / 0x1000;
    LoadedIsDirectory(l, s);
    SlotContext(l, s.t, s.t.running);
    DirectoryOffStacks(l, s.t, s.t.running, s.t.running);
    KernelReaches(l, s, s.cr3, p);
    assert InWindow(s, p);
    hide IsDirectory, Reaches, OffTables, MapsOk, FramesOk, LatestOk, PagesDisjoint, PidsOk;
  }

  /** An image page that is neither the kernel's directory nor a window table. */
  predicate PlainImagePage(l: Layout, x: nat) {
    x < 0x400 && x != Pd(l) && !(Tb(l) <= x < Tb(l) + 4)
  }

  /** The bootstrap context lies in such pages. */
  lemma BootFramePages(l: Layout)
    requires LayoutOk(l)
    ensures FrameAddress(BootstrapContext(l))
    ensures PlainImagePage(l, FirstPage(BootstrapContext(l))) && PlainImagePage(l, LastPage(BootstrapContext(l)))
  {
    BootContextWords(l);
    BootWordPage(l, 0);
    BootWordPage(l, 14);
  }

  lemma BootWordPage(l: Layout, j: nat)
    requires LayoutOk(l) && j < FRAME_WORDS
    ensures BootstrapContext(l) + 4 * j < 0x1_0000_0000 && PlainImagePage(l, (BootstrapContext(l) + 4 * j) / 0x1000)
  {
    BootContextWords(l);
    FramePage(BootstrapContext(l), j);
    var w := BootWord(l) + j;
    var x := (BootstrapContext(l) + 4 * j) / 0x1000;
    hide BootstrapContext;
    assert 1024 * x <= w < 1024 * x + 1024;
  }

  /** user_range_valid can walk every process's directory. */
  lemma SystemCallServed(l: Layout, s: System, i: nat)
    requires Inv(l, s) && InUse(s.t, i)
    ensures s.t.slots[i].directory / 0x1000 < MAX_FRAMES && Walkable(s.t.mem, s.cr3, s.t.slots[i].directory / 0x1000)
  {
    var m, directory, user := s.t.mem, s.t.slots[i].directory, s.t.slots[i].user;
    var dir := directory / 0x1000;
    LoadedIsDirectory(l, s);
    KernelReaches(l, s, s.cr3, dir);
    KernelReaches(l, s, s.cr3, Tb(l) + 1);
    assert InWindow(s, dir) && InWindow(s, Tb(l) + 1);
    assert DirectoryOk(l, m, directory, user);
    hide Inv, IsDirectory, Reaches, OffTables, InWindow, MakeEntry, Present, UserBit, Frame, Entry;
    forall k | 0 <= k < 1024 && Present(Entry(m, dir, k)) && UserBit(Entry(m, dir, k))
      ensures Reaches(m, s.cr3, Frame(Entry(m, dir, k)))
    {
      assert Entry(m, dir, k) == SlotWord(l, dir, user, k);
      UserSlotOnly(l, dir, user, k);
    }
  }

  lemma UserSlotOnly(l: Layout, dir: nat, user: bool, k: nat)
    requires Tb(l) + 4 <= MAX_FRAMES && dir < MAX_FRAMES && k < 1024
    ensures UserBit(SlotWord(l, dir, user, k)) ==> k == 1 && Frame(SlotWord(l, dir, user, k)) == Tb(l) + 1
  {
    if k < 4 {
      EntryDigits(Tb(l) + k, user && k == 1);
    } else {
      EntryDigits(dir, false);
    }
  }

  /** process_system_init runs with the kernel directory loaded and reaches the bootstrap context. */
  lemma StartServed(l: Layout, m: seq<Word>)
    requires LayoutOk(l) && |m| == MEM_WORDS && KernelMapped(m, Pd(l), Tb(l))
    ensures FrameAddress(BootstrapContext(l)) && FrameServed(m, l.pageDirectory, BootstrapContext(l))
  {
    BootFramePages(l);
    FramePages(BootstrapContext(l));
    ImagePageServed(l, m, FirstPage(BootstrapContext(l)));
    ImagePageServed(l, m, LastPage(BootstrapContext(l)));
    hide Reaches, OffTables, KernelMapped;
  }

  lemma ImagePageServed(l: Layout, m: seq<Word>, x: nat)
    requires LayoutOk(l) && |m| == MEM_WORDS && KernelMapped(m, Pd(l), Tb(l)) && PlainImagePage(l, x)
    ensures Ordinary(m, l.pageDirectory, x)
  {
    hide MakeEntry, Present, Frame, UserBit, Entry;
    EntryDigits(Pd(l), false);
    ZeroAbsent();
    forall i | 0 <= i < 1024
      ensures Present(Entry(m, Pd(l), i)) ==> Frame(Entry(m, Pd(l), i)) == if i == 1023 then Pd(l) else Tb(l) + i
      ensures i < 4 ==> Present(Entry(m, Pd(l), i))
      ensures 4 <= i < 1023 ==> !Present(Entry(m, Pd(l), i))
    {
      assert Entry(m, Pd(l), i) == KernelEntry(Pd(l), Tb(l), i);
      if i < 4 {
        EntryDigits(Tb(l) + i, false);
      }
    }
    assert IsIdentityTable(m, Tb(l), 0);
    assert Entry(m, Tb(l), x) == IdentityTable(0)[x];
    EntryDigits(x, false);
  }
}
