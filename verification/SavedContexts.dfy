/**
 Saved contexts across the creation of a user process: the words stay, the
 kernel's pointer to them stays only on clear pages.
 */
module SavedContexts {
  import opened Options
  import opened Machine
  import opened Memory
  import opened Pmm
  import opened Paging
  import opened Process
  import opened Runs
  import opened Creation
  import opened Dispatching
  import opened Pointers
  import opened KernelTheorems
  import opened PointerTheorems

  /** A directory that an event neither drops nor makes. */
  ghost predicate Survives(l: Layout, s: System, s': System, directory: Word) {
    IsDirectory(l, s, directory) && IsDirectory(l, s', directory)
  }

  lemma WindowSurvives(l: Layout, s: System, s': System, directory: Word)
    requires Inv(l, s) && Admission(l, s, s') && Survives(l, s, s', directory)
    ensures |s'.t.mem| == MEM_WORDS && 0 < directory / 0x1000 < 4096 && Tb(l) + 4 <= 4096
    ensures HasWindow(s'.t.mem, directory / 0x1000, Tb(l))
    ensures forall p :: 0 <= p < 4096 ==> Shown(s'.t.mem, Tb(l), p) == WindowPage(s', p)
  {
    EveryDirectory(l, s, directory);
    Basics(l, s);
    hide Inv, DirectoryOk, WindowOk, HasWindow, Elsewhere, InnerKept, FrameAt, WellFormed, PagesOf, WindowPage;
    hide LayoutOk;
    var i: nat, frame: seq<Word> :| Admits(l, s.t, s'.t, i, frame) && s' == Admitted(s, s'.t, i, frame);
    AdmitDirectories(l, s, s'.t, i, frame);
    AdmitWindow(l, s, s'.t, i, frame);
    if directory == l.pageDirectory {
      DirectoryHasWindow(l, s', directory, false);
    } else {
      var j :| InUse(s'.t, j) && directory == s'.t.slots[j].directory;
      DirectoryHasWindow(l, s', directory, s'.t.slots[j].user);
    }
    TablesLow(l);
  }

  /** Through that directory the pointer to page p leads to what the new window shows there. */
  lemma PointersAfter(l: Layout, s: System, s': System, directory: Word, p: nat)
    requires Inv(l, s) && Admission(l, s, s') && Survives(l, s, s', directory) && p < 4096
    ensures |s'.t.mem| == MEM_WORDS && directory / 0x1000 < MAX_FRAMES
    ensures Reaches(s'.t.mem, directory, p) <==> InWindow(s', p)
    ensures var t := Walk(s'.t.mem, directory / 0x1000, p / 1024, p % 1024); t != Fault && t.frame == WindowPage(s', p)
  {
    WindowSurvives(l, s, s', directory);
    hide Inv, Admission, Survives, Reaches, OffTables, HasWindow, Walk, Shown;
    ReachesIff(s'.t.mem, directory, Tb(l), p);
    WindowShows(s'.t.mem, directory / 0x1000, Tb(l), p);
  }

  lemma WindowShows(m: seq<Word>, dir: nat, tables: nat, p: nat)
    requires |m| == MEM_WORDS && dir < MAX_FRAMES && tables + 4 <= MAX_FRAMES && p < 4096 && HasWindow(m, dir, tables)
    ensures var t := Walk(m, dir, p / 1024, p % 1024); t != Fault && t.frame == Shown(m, tables, p)
  {
    hide Present, Frame, Entry, UserBit;
    var i := p / 1024;
    assert Present(Entry(m, dir, i)) && Frame(Entry(m, dir, i)) == tables + i;
    assert Present(Entry(m, tables + i, p % 1024));
  }

  /** An admission leaves the contexts of other slots in use as they are in memory. */
  lemma ContextsKept(l: Layout, s: System, s': System, j: nat)
    requires Inv(l, s) && Admission(l, s, s') && InUse(s.t, j) && j < |s'.t.slots| && s'.t.slots[j] == s.t.slots[j]
    ensures |s'.t.mem| == MEM_WORDS && FrameAddress(s.t.slots[j].context)
    ensures FrameAt(s'.t.mem, s.t.slots[j].context) == FrameAt(s.t.mem, s.t.slots[j].context)
  {
    var i: nat, frame: seq<Word> :| Admits(l, s.t, s'.t, i, frame) && s' == Admitted(s, s'.t, i, frame);
    var n := s.t.slots[j];
    PointerIndex(n.stackBase);
    assert n.stackBase / 0x1000 in PagesOf(n) && Taken(l, s.t.pool, PagesOf(n));
    AdmitKeepsPage(l, s.t, s'.t, i, frame, n.stackBase / 0x1000);
    SamePageFrame(s.t.mem, s'.t.mem, n.stackBase / 0x1000);
    hide Admits, FramesOk, MapsOk, LatestOk, PagesDisjoint, PidsOk, ReachOk, RunningOk;
  }

  /** The indexes of a stack page's context are those of the page. */
  lemma ContextIndexes(page: nat)
    requires page < MAX_FRAMES
    ensures var context := TopFrame(0x1000 * page);
            DirIndex(context) == page / 1024 && TableIndex(context) == page % 1024
  {
    TopFrameWords(page);
    PageOfIndexes(TopFrame(0x1000 * page));
    ContextPage(page);
    DivModUnique(page, 1024, DirIndex(TopFrame(0x1000 * page)), TableIndex(TopFrame(0x1000 * page)));
    hide TopFrame, DirIndex, TableIndex;
  }

  /**
   Across the creation of a user process, through any directory that is there
   before and after: the context saved for another slot keeps its words and was
   reached before; it is reached afterwards exactly when its stack page is
   clear.  Otherwise the pointer to it leads to the new process's code page
   (from page 0x400) or user stack page (from page 0x7ff).
   */
  lemma SavedContextStays(l: Layout, s: System, image: Option<seq<Byte>>, j: nat, directory: Word)
    requires Inv(l, s) && CreatedUser(l, s.t, image).1.Some?
    requires InUse(s.t, j) && FirstReusable(s.t.slots, 1) != Some(j)
    requires Survives(l, s, Effect(l, s, CreateUser(image)), directory)
    ensures var s', n := Effect(l, s, CreateUser(image)), s.t.slots[j];
            && j < |s'.t.slots| && s'.t.slots[j] == n && |s'.t.mem| == MEM_WORDS && FrameAddress(n.context)
            && directory / 0x1000 < MAX_FRAMES
            && FrameAt(s'.t.mem, n.context) == FrameAt(s.t.mem, n.context)
            && FrameReached(s.t.mem, directory, n.context)
            && (FrameReached(s'.t.mem, directory, n.context) <==> Clear(n.stackBase / 0x1000))
            && (!Clear(n.stackBase / 0x1000) ==>
                  var t := Translate(s'.t.mem, directory / 0x1000, n.context);
                  && t != Fault
                  && t.frame == if n.stackBase / 0x1000 == CODE_SLOT then s'.latestCode else s'.latestStack)
  {
    var s', page := Effect(l, s, CreateUser(image)), s.t.slots[j].stackBase / 0x1000;
    Basics(l, s);
    StackPlace(l, s, j);
    SlotPagesTaken(l, s, j);
    UserCreationSound(l, s, image);
    CreationStep(l, s, CreateUser(image));
    hide Inv, CreatedUser, Effect, Admission, Survives, Reaches, Lowest, LayoutOk, Sound, UserPagesFit, FirstReusable;
    hide OthersClear, FrameAt, DirIndex, TableIndex;
    PointersAfter(l, s, s', directory, page);
    WindowOff(s', page);
    ContextsKept(l, s, s', j);
    ContextPage(page);
    ContextIndexes(page);
    FramePages(s.t.slots[j].context);
    ReachedBefore(l, s, s', directory, page);
  }

  lemma StackPlace(l: Layout, s: System, j: nat)
    requires Inv(l, s) && InUse(s.t, j)
    ensures var n := s.t.slots[j];
            var page := n.stackBase / 0x1000;
            page < 4096 && InWindow(s, page) && n.stackBase == 0x1000 * page && n.context == TopFrame(0x1000 * page)
  {
    PointerIndex(s.t.slots[j].stackBase);
    hide FramesOk, MapsOk, LatestOk, PagesDisjoint, PidsOk, RunningOk, TopFrame;
  }

  lemma ReachedBefore(l: Layout, s: System, s': System, directory: Word, page: nat)
    requires Inv(l, s) && Survives(l, s, s', directory) && page < 4096 && InWindow(s, page)
    ensures Reaches(s.t.mem, directory, page)
  {
    KernelReaches(l, s, directory, page);
    hide Inv, IsDirectory;
  }

  // ------------------------------------------------------- a lost context

  /** The first process_create when pages 0x400 to 0x7ff are free: it takes pages 0x400 and 0x401. */
  lemma FirstKernelPages(l: Layout, s: System, entry: Word, argument: Word)
    requires Inv(l, s) && s.users == 0 && FirstReusable(s.t.slots, 1) == Some(1) && entry != 0
    requires s.t.slots[s.t.running].state == Running
    requires forall p :: p in s.t.pool.free <==> 0x400 <= p < 0x800
    ensures Sound(l, s, CreateKernel(entry, argument)) && FrameAddress(0x40_0fc4)
    ensures var s1 := Step(l, s, CreateKernel(entry, argument));
            && HasKernelPages(s, s1, 1, 0x400, 0x401) && s1.t.slots[1].context == 0x40_0fc4
            && |s1.t.mem| == MEM_WORDS && |s1.saved| == |s.t.slots|
            && FrameAt(s1.t.mem, 0x40_0fc4) == KernelFrame(l, 0x40_0000) == s1.saved[1]
  {
    hide Inv, Sound, Lowest, Least, LayoutOk, Created, HasKernelPages, TopFrame;
    Basics(l, s);
    LowestOfSpan(s.t.pool.free, 0x400, 0x800, 2);
    assert {0x400, 0x401} <= s.t.pool.free;
    BoundedBySubset({0x400, 0x401}, s.t.pool.free);
    CreatedTakesTwo(l, s.t, entry, argument);
    KernelCreationSound(l, s, entry, argument);
    TopFrameWords(0x400);
    FirstKernelContext(l, s, entry, argument);
  }

  lemma FirstKernelContext(l: Layout, s: System, entry: Word, argument: Word)
    requires Inv(l, s) && Created(l, s.t, entry, argument).1.Some? && FirstReusable(s.t.slots, 1) == Some(1)
    requires Lowest(s.t.pool.free, 2) == [0x400, 0x401]
    ensures var s1 := Effect(l, s, CreateKernel(entry, argument));
            && |s1.t.slots| == |s.t.slots| == |s1.saved| && s1.t.slots[1].context == TopFrame(0x40_0000)
            && |s1.t.mem| == MEM_WORDS && FrameAddress(TopFrame(0x40_0000))
            && FrameAt(s1.t.mem, TopFrame(0x40_0000)) == KernelFrame(l, 0x40_0000) == s1.saved[1]
  {
    Basics(l, s);
    hide Inv, Lowest, Least, DirectoryOk, KernelFrame, FrameAt, LayoutOk, Allocated, TopFrame, FirstReusable;
    var p, q := CreatedShape(l, s.t, entry, argument);
    hide Created;
  }

  /**
   Memory from 4 MiB on: the first process_create is sound, its context lies on
   page 0x400 and is reached.  Creating a user process next leaves its words in
   place but redirects the pointer to them to the new code page.
   */
  lemma SavedContextLost(l: Layout, mem: seq<Word>, n: nat, entry: Word, argument: Word, image: seq<Byte>)
    requires Bootable(l, mem, n) && n >= 3 && entry != 0 && 0 < |image| <= 4096
    ensures var s, e := Boot(l, MapOf(0x40_0000), mem, n), CreateUser(Some(image));
            var s1 := Run(l, s, [CreateKernel(entry, argument)]);
            var s2 := Effect(l, s1, e);
            && Sound(l, s, CreateKernel(entry, argument)) && s1.kernels == 1
            && InUse(s1.t, 1) && s1.t.slots[1].context == 0x40_0fc4 && FrameAddress(0x40_0fc4)
            && s1.saved[1] == FrameAt(s1.t.mem, 0x40_0fc4) && FrameReached(s1.t.mem, l.pageDirectory, 0x40_0fc4)
            && CreatedUser(l, s1.t, Some(image)).1.Some? && !Sound(l, s1, e)
            && |s2.t.mem| == MEM_WORDS && FrameAt(s2.t.mem, 0x40_0fc4) == s1.saved[1]
            && s2.latestCode == 0x403 && Translate(s2.t.mem, l.pageDirectory / 0x1000, 0x40_0fc4) == To(0x403, false)
  {
    hide Boot, Translate, NoSlotLeft, Inv, Sound, Created, CreatedUser, KernelFrame, FrameAt, MapOf, Effect, Admission;
    hide Step, ReachOk, FrameReached, LayoutOk, Run, UserFrame;
    ReadyToCreate(l, 0x40_0000, mem, n);
    var s, e := Boot(l, MapOf(0x40_0000), mem, n), CreateUser(Some(image));
    Basics(l, s);
    FirstKernelPages(l, s, entry, argument);
    OneEventRun(l, s, CreateKernel(entry, argument));
    var s1 := Step(l, s, CreateKernel(entry, argument));
    StepKeepsInv(l, s, CreateKernel(entry, argument));
    RoomForUser(l, s1, image);
    LostAfterUser(l, s1, image);
  }

  lemma OneEventRun(l: Layout, s: System, e: Event)
    requires Inv(l, s)
    ensures Run(l, s, [e]) == Step(l, s, e)
  {
    StepKeepsInv(l, s, e);
    hide Inv, Step;
  }

  lemma RoomForUser(l: Layout, s: System, image: seq<Byte>)
    requires Inv(l, s) && 0 < |image| <= 4096 && forall p :: p in s.t.pool.free <==> 0x402 <= p < 0x800
    requires |s.t.slots| >= 3 && s.t.slots[1].state == Ready && s.t.slots[2].state == Unused
    ensures CreatedUser(l, s.t, Some(image)).1.Some? && FirstReusable(s.t.slots, 1) == Some(2)
  {
    Basics(l, s);
    assert {0x402, 0x403, 0x404, 0x405} <= s.t.pool.free;
    BoundedBySubset({0x402, 0x403, 0x404, 0x405}, s.t.pool.free);
    CreatedUserTakesFour(l, s.t, Some(image));
    assert Reusable(s.t.slots[2]);
    hide Inv, CreatedUser;
  }

  /** The context on page 0x400 is lost to a user process on pages 0x402 to 0x405. */
  lemma LostAfterUser(l: Layout, s: System, image: seq<Byte>)
    requires Inv(l, s) && CreatedUser(l, s.t, Some(image)).1.Some? && FirstReusable(s.t.slots, 1) == Some(2)
    requires InUse(s.t, 1) && s.t.slots[1].stackBase == 0x40_0000 && s.t.slots[1].context == 0x40_0fc4
    requires s.cr3 == l.pageDirectory && forall p :: p in s.t.pool.free <==> 0x402 <= p < 0x800
    ensures var s' := Effect(l, s, CreateUser(Some(image)));
            && !Sound(l, s, CreateUser(Some(image))) && |s'.t.mem| == MEM_WORDS && FrameAddress(0x40_0fc4)
            && FrameAt(s'.t.mem, 0x40_0fc4) == FrameAt(s.t.mem, 0x40_0fc4)
            && FrameReached(s.t.mem, l.pageDirectory, 0x40_0fc4) && !FrameReached(s'.t.mem, l.pageDirectory, 0x40_0fc4)
            && s'.latestCode == 0x403 && Translate(s'.t.mem, l.pageDirectory / 0x1000, 0x40_0fc4) == To(0x403, false)
  {
    hide Inv, Sound, CreatedUser, FrameAt, Effect, Admission, FrameReached, LayoutOk, Lowest, FirstReusable, Translate;
    var e := CreateUser(Some(image));
    Basics(l, s);
    SavedContextStays(l, s, Some(image), 1, l.pageDirectory);
    LowestOfSpan(s.t.pool.free, 0x402, 0x800, 4);
    UserCreationSound(l, s, Some(image));
    CreationStep(l, s, e);
    RedirectedPointer(l, s, Effect(l, s, e));
  }
}
