/**
 Which boot maps keep every kernel pointer right in every run, and what goes
 wrong with others: a concrete map for each way.
 */
module PointerTheorems {
  import opened Options
  import opened Machine
  import opened Memory
  import opened Pmm
  import opened Paging
  import opened Process
  import opened Scheduler
  import opened Runs
  import opened Creation
  import opened Dispatching
  import opened Pointers
  import opened KernelTheorems

  // ------------------------------------------------------------ clear maps

  /** Start-up leaves only pages free that every window shows at their own place. */
  ghost predicate ClearMap(info: BootInfo, kernelEnd: Word) {
    forall p :: p in BootFree(info, kernelEnd) ==> Clear(p)
  }

  /** Free pages, and stacks and directories in use, are clear. */
  ghost predicate AllClear(s: System) {
    && (forall p :: p in s.t.pool.free ==> Clear(p))
    && forall i :: InUse(s.t, i) ==> Clear(s.t.slots[i].stackBase / 0x1000) && Clear(s.t.slots[i].directory / 0x1000)
  }

  lemma ClearInWindow(s: System, p: nat)
    requires Clear(p)
    ensures InWindow(s, p)
  {
  }

  lemma AdmissionKeepsClear(l: Layout, s: System, s': System)
    requires Inv(l, s) && AllClear(s) && Admission(l, s, s')
    ensures AllClear(s')
  {
    hide FramesOk, MapsOk, SlotsOk, PagesDisjoint, LatestOk, RunningOk, PoolAbove, DirectoryOk, Elsewhere, InnerKept;
    hide Clear;
    hide InWindow, WellFormed, FrameAt;
    var i: nat, frame: seq<Word> :| Admits(l, s.t, s'.t, i, frame) && s' == Admitted(s, s'.t, i, frame);
    var n := s'.t.slots[i];
    assert n.stackBase / 0x1000 in PagesOf(n) && n.directory / 0x1000 in PagesOf(n);
    forall j | InUse(s'.t, j)
      ensures Clear(s'.t.slots[j].stackBase / 0x1000) && Clear(s'.t.slots[j].directory / 0x1000)
    {
      if j != i {
        assert InUse(s.t, j) && s'.t.slots[j] == s.t.slots[j];
      }
    }
  }

  /** On clear pages every creation is sound. */
  lemma ClearIsSound(l: Layout, s: System, e: Event)
    requires Inv(l, s) && AllClear(s) && (e.CreateKernel? || e.CreateUser?)
    ensures Shape(l, s) && Sound(l, s, e) && AllClear(Effect(l, s, e))
  {
    Basics(l, s);
    CreationStep(l, s, e);
    hide Inv, AllClear, Admission, Effect, Sound;
    var s' := Effect(l, s, e);
    if s' != s {
      AdmissionKeepsClear(l, s, s');
    }
    if e.CreateKernel? {
      ClearKernelSound(l, s, e.entry, e.argument);
    } else {
      ClearUserSound(l, s, e.image);
    }
  }

  lemma ClearKernelSound(l: Layout, s: System, entry: Word, argument: Word)
    requires Inv(l, s) && AllClear(s)
    ensures Sound(l, s, CreateKernel(entry, argument))
  {
    Basics(l, s);
    CreatedTakesTwo(l, s.t, entry, argument);
    hide Inv, Sound, Created, Effect, Clear, InWindow, Lowest, NoSlotLeft;
    if Created(l, s.t, entry, argument).1.Some? {
      KernelCreationSound(l, s, entry, argument);
      var pages := Lowest(s.t.pool.free, 2);
      ClearInWindow(s, pages[0]);
      ClearInWindow(s, pages[1]);
    } else {
      NoAccessWithoutPages(l, s, entry, argument);
    }
  }

  lemma ClearUserSound(l: Layout, s: System, image: Option<seq<Byte>>)
    requires Inv(l, s) && AllClear(s)
    ensures Sound(l, s, CreateUser(image))
  {
    Basics(l, s);
    CreatedUserTakesFour(l, s.t, image);
    hide Inv, Sound, CreatedUser, Effect, InWindow, Lowest, NoSlotLeft, HasUserPages;
    if CreatedUser(l, s.t, image).1.Some? {
      UserCreationSound(l, s, image);
      ClearInWindow(s, Lowest(s.t.pool.free, 4)[1]);
    } else {
      NoUserAccessWithoutPages(l, s, image);
    }
  }

  lemma StepKeepsClear(l: Layout, s: System, e: Event)
    requires Inv(l, s) && AllClear(s)
    ensures AllClear(Step(l, s, e))
  {
    if Enabled(l, s, e) {
      match e
      case CreateKernel(_, _) => ClearIsSound(l, s, e);
      case CreateUser(_) => ClearIsSound(l, s, e);
      case Dispatch(context) => DispatchKeepsClear(l, s, context);
      case Terminate => TerminateKeepsClear(l, s);
      case Execute(_) =>
    }
  }

  lemma TerminateKeepsClear(l: Layout, s: System)
    requires Inv(l, s) && AllClear(s)
    ensures AllClear(Effect(l, s, Terminate))
  {
    var s' := Effect(l, s, Terminate);
    hide MapsOk, FramesOk, LatestOk, ReachOk, PagesDisjoint, PidsOk, RunningOk, Clear;
    forall i | InUse(s'.t, i) ensures InUse(s.t, i) && s'.t.slots[i] == s.t.slots[i].(state := s'.t.slots[i].state) {
      if i == s.t.running {
        RunningContext(l, s);
      }
    }
  }

  lemma DispatchKeepsClear(l: Layout, s: System, context: Word)
    requires Inv(l, s) && AllClear(s) && ContextPlaced(l, s.t, context)
    ensures AllClear(Effect(l, s, Dispatch(context)))
  {
    DispatchShape(l, s, context);
    hide Effect, Inv, WithFrame, FrameAt, Switches, Clear, KernelStackTop;
  }

  lemma {:induction false} RunKeepsClear(l: Layout, s: System, events: seq<Event>)
    requires Inv(l, s) && AllClear(s)
    ensures AllClear(Run(l, s, events))
    decreases |events|
  {
    if events != [] {
      StepKeepsClear(l, s, events[0]);
      StepKeepsInv(l, s, events[0]);
      RunKeepsClear(l, Step(l, s, events[0]), events[1..]);
    }
  }

  /**
   With a clear boot map no run ever leads the kernel astray: in every reachable
   state every creation is sound, and every page that is free or holds a stack
   or a directory is reached through the loaded directory.
   */
  lemma ClearMapsSuffice(l: Layout, info: BootInfo, mem: seq<Word>, n: nat, events: seq<Event>, e: Event, p: nat)
    requires Bootable(l, mem, n) && ClearMap(info, l.kernelEnd)
    ensures var s := Run(l, Boot(l, info, mem, n), events);
            && (e.CreateKernel? || e.CreateUser? ==> Sound(l, s, e))
            && (p in s.t.pool.free ==> p < MAX_FRAMES && Reaches(s.t.mem, s.cr3, p))
  {
    var s := Run(l, Boot(l, info, mem, n), events);
    StartsClear(l, info, mem, n);
    RunKeepsClear(l, Boot(l, info, mem, n), events);
    hide Inv, Boot, Run, Sound, Clear, InWindow;
    if e.CreateKernel? || e.CreateUser? {
      ClearIsSound(l, s, e);
    }
    if p in s.t.pool.free {
      ClearInWindow(s, p);
      FreePagesOffTables(l, s, p);
      LoadedIsDirectory(l, s);
      KernelReaches(l, s, s.cr3, p);
    }
  }

  lemma StartsClear(l: Layout, info: BootInfo, mem: seq<Word>, n: nat)
    requires Bootable(l, mem, n) && ClearMap(info, l.kernelEnd)
    ensures AllClear(Boot(l, info, mem, n))
  {
    hide Inv, PagingStarted, WithFrame, BootFree, Clear;
  }

  /** Without a usable map start-up frees the fixed window, page 0x400 included. */
  lemma MissingMapIsNotClear(info: BootInfo, kernelEnd: Word)
    requires !HasUsableMap(info) && kernelEnd <= 0x40_0000
    requires forall r :: r in info.regions && Usable(r) ==> RegionExact(r)
    ensures !ClearMap(info, kernelEnd)
  {
    BootFreeExactly(info, kernelEnd, CODE_SLOT);
    assert CODE_SLOT in BootFree(info, kernelEnd) && !Clear(CODE_SLOT);
  }

  /** A map whose usable regions all end by 4 MiB is clear. */
  lemma LowMapsAreClear(info: BootInfo, kernelEnd: Word)
    requires HasUsableMap(info)
    requires forall r :: r in info.regions && Usable(r) ==> RegionExact(r) && r.base + r.length <= 0x40_0000
    ensures ClearMap(info, kernelEnd)
  {
    forall p | p in BootFree(info, kernelEnd) ensures Clear(p) {
      BootFreeExactly(info, kernelEnd, p);
    }
  }

  // --------------------------------------------------------- failing inputs

  function MapOf(base: Quad): BootInfo {
    BootInfo(0x1000, 8, [Region(base, 0x40_0000, 1)])
  }

  /** Four megabytes of memory at base, and nothing else. */
  lemma MapOfFrees(base: Quad, kernelEnd: Word, p: nat)
    requires 0x40_0000 <= base <= 0x4000_0000 && base % 0x1000 == 0 && kernelEnd <= 0x40_0000
    ensures p in BootFree(MapOf(base), kernelEnd) <==> base / 0x1000 <= p < base / 0x1000 + 0x400
  {
    var info, r := MapOf(base), Region(base, 0x40_0000, 1);
    assert info.regions[0] == r && r in info.regions && RegionExact(r) && Usable(r);
    assert HasUsableMap(info);
    BootFreeExactly(info, kernelEnd, p);
    if r' :| r' in info.regions && Inside(p, r'.base, r'.base + r'.length) {
      assert r' == r;
    }
    DivParts(base);
    hide BootFree, HasUsableMap;
  }

  lemma DivParts(base: Quad)
    requires base % 0x1000 == 0
    ensures base == 0x1000 * (base / 0x1000)
  {
  }

  /** The first slot is free after start-up, and such a map has pages enough. */
  lemma ReadyToCreate(l: Layout, base: Quad, mem: seq<Word>, n: nat)
    requires Bootable(l, mem, n) && n >= 2 && 0x40_0000 <= base <= 0x4000_0000 && base % 0x1000 == 0
    ensures var s := Boot(l, MapOf(base), mem, n);
            && s.t.slots[s.t.running].state == Running && s.users == 0 && s.cr3 == l.pageDirectory
            && |s.t.pool.free| >= 4 && FirstReusable(s.t.slots, 1) == Some(1) && !NoSlotLeft(s.t)
            && |s.t.slots| == n && (forall i :: 1 <= i < n ==> s.t.slots[i] == EMPTY_SLOT)
            && forall p :: p in s.t.pool.free <==> base / 0x1000 <= p < base / 0x1000 + 0x400
  {
    hide Inv, PagingStarted, WithFrame, BootFree;
    var s := Boot(l, MapOf(base), mem, n);
    forall p: nat ensures p in s.t.pool.free <==> base / 0x1000 <= p < base / 0x1000 + 0x400 {
      MapOfFrees(base, l.kernelEnd, p);
    }
    var b := base / 0x1000;
    assert {b, b + 1, b + 2, b + 3} <= s.t.pool.free;
    BoundedBySubset({b, b + 1, b + 2, b + 3}, s.t.pool.free);
    assert s.t.slots[1] == EMPTY_SLOT;
  }

  /**
   Memory from 16 MiB on: the first process_create has its pages, and every
   pointer into them is a page fault.
   */
  lemma HighMapFaults(l: Layout, mem: seq<Word>, n: nat, entry: Word, argument: Word)
    requires Bootable(l, mem, n) && n >= 2 && entry != 0
    ensures var s := Boot(l, MapOf(0x100_0000), mem, n);
            && Created(l, s.t, entry, argument).1.Some?
            && !Sound(l, s, CreateKernel(entry, argument))
            && forall va: Word :: 0x100_0000 <= va < 0x140_0000 ==> Translate(s.t.mem, s.cr3 / 0x1000, va) == Fault
  {
    hide Inv, Boot, Sound, NoSlotLeft, Translate;
    ReadyToCreate(l, 0x100_0000, mem, n);
    var s := Boot(l, MapOf(0x100_0000), mem, n);
    Basics(l, s);
    CreatedTakesTwo(l, s.t, entry, argument);
    KernelCreationSound(l, s, entry, argument);
    LoadedIsDirectory(l, s);
    forall va: Word | 0x100_0000 <= va < 0x140_0000 ensures Translate(s.t.mem, s.cr3 / 0x1000, va) == Fault {
      KernelFaultsAbove(l, s, s.cr3, va);
    }
    hide Created, IsDirectory, MapOf;
  }

  /** The lowest pages of a gapless free set follow its first page. */
  lemma {:induction false} LowestOfSpan(s: set<nat>, first: nat, end: nat, n: nat)
    requires (forall x :: x in s <==> first <= x < end) && first + n <= end
    ensures |Lowest(s, n)| == n && forall k :: 0 <= k < n ==> Lowest(s, n)[k] == first + k
  {
    if n > 0 {
      assert first in s;
      assert Least(s) == first;
      LowestNext(s, n);
      LowestOfSpan(s - {first}, first + 1, end, n - 1);
      hide Lowest, Least;
    }
  }

  /**
   Memory from 4 MiB on: the first user process gets page 0x400 as its kernel
   stack and another as its code page.  Once both mappings are made, the pointer
   to its saved context leads to the code page.
   */
  lemma StackPageLost(l: Layout, mem: seq<Word>, n: nat, image: seq<Byte>)
    requires Bootable(l, mem, n) && n >= 2 && 0 < |image| <= 4096
    ensures var s := Boot(l, MapOf(0x40_0000), mem, n);
            var e := CreateUser(Some(image));
            var s' := Effect(l, s, e);
            && CreatedUser(l, s.t, Some(image)).1.Some? && !Sound(l, s, e)
            && |s'.t.slots| >= 2 && s'.t.slots[1].context == 0x40_0fc4 && s'.t.slots[1].stackBase == 0x40_0000
            && s'.latestCode == 0x401 && |s'.t.mem| == MEM_WORDS
            && Translate(s'.t.mem, s.cr3 / 0x1000, 0x40_0fc4) == To(0x401, false)
  {
    hide Inv, Boot, Sound, NoSlotLeft, Translate, CreatedUser, LayoutOk, Lowest, Effect, Admission;
    ReadyToCreate(l, 0x40_0000, mem, n);
    var s := Boot(l, MapOf(0x40_0000), mem, n);
    Basics(l, s);
    CreatedUserTakesFour(l, s.t, Some(image));
    LowestOfSpan(s.t.pool.free, 0x400, 0x800, 4);
    UserCreationSound(l, s, Some(image));
    TopFrameWords(0x400);
    CreationStep(l, s, CreateUser(Some(image)));
    RedirectedPointer(l, s, Effect(l, s, CreateUser(Some(image))));
  }

  lemma RedirectedPointer(l: Layout, s: System, s': System)
    requires Inv(l, s) && Admission(l, s, s') && s'.users > 0 && s.cr3 == l.pageDirectory
    ensures |s'.t.mem| == MEM_WORDS && Translate(s'.t.mem, s.cr3 / 0x1000, 0x40_0fc4) == To(s'.latestCode, false)
  {
    hide FramesOk, PagesDisjoint, LatestOk, PidsOk, ReachOk, SlotsOk, RunningOk, DirectoryOk, WindowOk, Elsewhere;
    hide InnerKept, FrameAt;
    var i: nat, frame: seq<Word> :| Admits(l, s.t, s'.t, i, frame) && s' == Admitted(s, s'.t, i, frame);
    AdmitDirectories(l, s, s'.t, i, frame);
    AdmitWindow(l, s, s'.t, i, frame);
    WindowPointer(l, s');
  }

  lemma WindowPointer(l: Layout, s: System)
    requires LayoutOk(l) && TableOk(s.t) && WindowOk(l, s) && DirectoryOk(l, s.t.mem, l.pageDirectory, false)
    requires s.users > 0
    ensures Translate(s.t.mem, l.pageDirectory / 0x1000, 0x40_0fc4) == To(s.latestCode, false)
  {
    hide MakeEntry, Present, Frame, UserBit;
    assert Entry(s.t.mem, Pd(l), 1) == SlotWord(l, Pd(l), false, 1);
    assert WindowEntry(l, s.t.mem, CODE_SLOT) == MakeEntry(s.latestCode, true);
    EntryDigits(Tb(l) + 1, false);
    EntryDigits(s.latestCode, true);
  }
}
