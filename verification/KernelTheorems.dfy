/** What holds in every run of the kernel from start-up. */
module KernelTheorems {
  import opened Options
  import opened Machine
  import opened Memory
  import opened Pmm
  import opened Paging
  import opened Process
  import opened Scheduler
  import opened Runs
  import opened Creation
  import opened Dispatching
  import opened Pointers

  // ------------------------------------------------------------- creation

  ghost predicate NoSlotLeft(t: Table) {
    forall i :: 1 <= i < |t.slots| ==> !Reusable(t.slots[i])
  }

  /** What creation computes: nothing at all exactly without arguments, slot or pages, or two pages and the next pid. */
  lemma CreatedTakesTwo(l: Layout, t: Table, entry: Word, argument: Word)
    requires TableOk(t) && LayoutOk(l) && PoolAbove(l, t.pool) && DirectoryOk(l, t.mem, l.pageDirectory, false)
    ensures var (t', pid) := Created(l, t, entry, argument);
            && (pid == None <==> entry == 0 || |t.pool.free| < 2 || NoSlotLeft(t))
            && (pid == None ==> t' == t)
            && (pid.Some? ==> pid.value == t.nextPid && |t'.pool.free| == |t.pool.free| - 2)
  {
    assert FirstReusable(t.slots, 1) == None <==> NoSlotLeft(t);
    if Created(l, t, entry, argument).1.Some? {
      CreatedAdmits(l, t, entry, argument);
      var i := FirstReusable(t.slots, 1).value;
      PageCount(Created(l, t, entry, argument).0.slots[i]);
    }
  }

  lemma CreatedUserTakesFour(l: Layout, t: Table, image: Option<seq<Byte>>)
    requires TableOk(t) && LayoutOk(l) && PoolAbove(l, t.pool) && DirectoryOk(l, t.mem, l.pageDirectory, false)
    ensures var (t', pid) := CreatedUser(l, t, image);
            && (pid == None <==> image == None || |image.value| == 0 || |image.value| > 4096
                                 || |t.pool.free| < 4 || NoSlotLeft(t))
            && (pid == None ==> t' == t)
            && (pid.Some? ==> pid.value == t.nextPid && |t'.pool.free| == |t.pool.free| - 4)
  {
    assert FirstReusable(t.slots, 1) == None <==> NoSlotLeft(t);
    if CreatedUser(l, t, image).1.Some? {
      CreatedUserAdmits(l, t, image);
      var i := FirstReusable(t.slots, 1).value;
      PageCount(CreatedUser(l, t, image).0.slots[i]);
    }
  }

  /**
   In every state of a run process_create fails, changing nothing, exactly when
   the entry is null, fewer than two pages are free or no slot is reusable.
   Otherwise it returns the next pid and takes the two lowest free pages, unless
   the kernel's pointers do not lead to one of them: exactly then an access
   faults or goes astray.
   */
  lemma CreateAllOrNothing(l: Layout, s: System, entry: Word, argument: Word)
    requires Inv(l, s) && s.t.slots[s.t.running].state == Running
    ensures var e, s' := CreateKernel(entry, argument), Step(l, s, CreateKernel(entry, argument));
            if entry == 0 || |s.t.pool.free| < 2 || NoSlotLeft(s.t) then Sound(l, s, e) && s' == s
            else
              && FirstReusable(s.t.slots, 1).Some? && |Lowest(s.t.pool.free, 2)| == 2
              && var i, pages := FirstReusable(s.t.slots, 1).value, Lowest(s.t.pool.free, 2);
                 && (Sound(l, s, e) <==> InWindow(s, pages[0]) && InWindow(s, pages[1]))
                 && (Sound(l, s, e) ==>
                       |s'.t.pool.free| == |s.t.pool.free| - 2 && HasKernelPages(s, s', i, pages[0], pages[1]))
  {
    CreatedTakesTwo(l, s.t, entry, argument);
    if Created(l, s.t, entry, argument).1.Some? {
      KernelCreationSound(l, s, entry, argument);
    } else {
      NoAccessWithoutPages(l, s, entry, argument);
    }
    hide Lowest, InWindow, HasKernelPages;
  }

  /**
   The same for process_create_user, with the limits on the image and the four
   lowest free pages: unless they fit, and exactly then, an access of this call
   or a later one to a stack or a directory faults or goes astray.
   */
  lemma CreateUserAllOrNothing(l: Layout, s: System, image: Option<seq<Byte>>)
    requires Inv(l, s) && s.t.slots[s.t.running].state == Running
    ensures var e, s' := CreateUser(image), Step(l, s, CreateUser(image));
            if image == None || |image.value| == 0 || |image.value| > 4096 || |s.t.pool.free| < 4
              || NoSlotLeft(s.t) then
              Sound(l, s, e) && s' == s
            else
              && FirstReusable(s.t.slots, 1).Some? && |Lowest(s.t.pool.free, 4)| == 4
              && var i, pages := FirstReusable(s.t.slots, 1).value, Lowest(s.t.pool.free, 4);
                 && (Sound(l, s, e) <==> UserPagesFit(s, i, pages[0], pages[1], pages[3]))
                 && (Sound(l, s, e) ==>
                       && |s'.t.pool.free| == |s.t.pool.free| - 4
                       && HasUserPages(s, s', i, pages[0], pages[1], pages[2], pages[3]))
  {
    CreatedUserTakesFour(l, s.t, image);
    if CreatedUser(l, s.t, image).1.Some? {
      UserCreationSound(l, s, image);
    } else {
      NoUserAccessWithoutPages(l, s, image);
    }
    hide Lowest, UserPagesFit, HasUserPages;
  }

  lemma NoAccessWithoutPages(l: Layout, s: System, entry: Word, argument: Word)
    requires Inv(l, s) && Created(l, s.t, entry, argument) == (s.t, None)
    requires entry == 0 || |s.t.pool.free| < 2 || NoSlotLeft(s.t)
    ensures Sound(l, s, CreateKernel(entry, argument)) && Effect(l, s, CreateKernel(entry, argument)) == s
  {
    FailureIsMonotone(s.t.pool);
    hide Created, Allocated, Ordinary;
  }

  lemma NoUserAccessWithoutPages(l: Layout, s: System, image: Option<seq<Byte>>)
    requires Inv(l, s) && CreatedUser(l, s.t, image) == (s.t, None)
    requires image == None || |image.value| == 0 || |image.value| > 4096 || |s.t.pool.free| < 4 || NoSlotLeft(s.t)
    ensures Sound(l, s, CreateUser(image)) && Effect(l, s, CreateUser(image)) == s
  {
    if |s.t.pool.free| < 4 {
      ThreeOfThree(s.t.pool);
    }
    hide CreatedUser, MapsServed, ThreeTaken;
  }

  lemma ThreeOfThree(a: Pool)
    requires PoolOk(a) && |a.free| < 4
    ensures ThreeTaken(a).free == {}
  {
    hide Least;
    FailureIsMonotone(a);
    FailureIsMonotone(Allocated(a).0);
    FailureIsMonotone(Allocated(Allocated(a).0).0);
    hide Allocated;
  }

  // ------------------------------------------------------------------ runs

  /** What a creation event does to the system: nothing, or an admission. */
  ghost predicate Admission(l: Layout, s: System, s': System)
    requires TableOk(s.t) && LayoutOk(l) && |s.saved| == |s.t.slots|
  {
    exists i: nat, frame: seq<Word> :: Admits(l, s.t, s'.t, i, frame) && s' == Admitted(s, s'.t, i, frame)
  }

  lemma CreationStep(l: Layout, s: System, e: Event)
    requires Inv(l, s) && (e.CreateKernel? || e.CreateUser?)
    ensures Effect(l, s, e) == s || Admission(l, s, Effect(l, s, e))
  {
    if e.CreateKernel? {
      KernelCreationStep(l, s, e.entry, e.argument);
    } else {
      UserCreationStep(l, s, e.image);
    }
  }

  lemma KernelCreationStep(l: Layout, s: System, entry: Word, argument: Word)
    requires Inv(l, s)
    ensures var s' := Effect(l, s, CreateKernel(entry, argument)); s' == s || Admission(l, s, s')
  {
    CreatedTakesTwo(l, s.t, entry, argument);
    if Created(l, s.t, entry, argument).1.Some? {
      CreatedAdmits(l, s.t, entry, argument);
      hide Created, InitialFrame, Inv, FirstReusable, Elsewhere, PagesOf, WellFormed, DirectoryOk, SamePage;
      var i := FirstReusable(s.t.slots, 1).value;
      var s' := Effect(l, s, CreateKernel(entry, argument));
      assert s' == Admitted(s, s'.t, i, KernelFrame(l, s'.t.slots[i].stackBase));
    }
  }

  lemma UserCreationStep(l: Layout, s: System, image: Option<seq<Byte>>)
    requires Inv(l, s)
    ensures var s' := Effect(l, s, CreateUser(image)); s' == s || Admission(l, s, s')
  {
    CreatedUserTakesFour(l, s.t, image);
    if CreatedUser(l, s.t, image).1.Some? {
      CreatedUserAdmits(l, s.t, image);
      hide CreatedUser, InitialFrame, Inv, FirstReusable, Elsewhere, PagesOf, WellFormed, DirectoryOk, SamePage;
      var i := FirstReusable(s.t.slots, 1).value;
      var s' := Effect(l, s, CreateUser(image));
      assert s' == Admitted(s, s'.t, i, UserFrame());
    }
  }

  /** An admission keeps the invariant, what runs and every slot that can run. */
  lemma AdmissionKeeps(l: Layout, s: System, s': System)
    requires Inv(l, s) && s.t.slots[s.t.running].state == Running && Admission(l, s, s') && ReachOk(s')
    ensures Inv(l, s') && s'.t.running == s.t.running && |s'.t.slots| == |s.t.slots|
    ensures s'.t.nextPid == s.t.nextPid + 1
    ensures forall w :: 0 <= w < |s.t.slots| && Runnable(s.t.slots[w]) ==> s'.t.slots[w] == s.t.slots[w]
    ensures forall w :: 0 <= w < |s.t.slots| ==> s'.t.slots[w] == s.t.slots[w] || s'.t.slots[w].pid == s.t.nextPid
  {
    hide FramesOk, MapsOk, SlotsOk, PagesDisjoint, ReachOk, LatestOk, RunningOk, PoolAbove, DirectoryOk, Elsewhere;
    hide InnerKept;
    var i: nat, frame: seq<Word> :| Admits(l, s.t, s'.t, i, frame) && s' == Admitted(s, s'.t, i, frame);
    AdmitKeepsInv(l, s, s'.t, i, frame);
  }

  /** Every step keeps the invariant. */
  lemma StepKeepsInv(l: Layout, s: System, e: Event)
    requires Inv(l, s)
    ensures Inv(l, Step(l, s, e))
  {
    if Enabled(l, s, e) {
      match e
      case CreateKernel(_, _) => CreationKeepsInv(l, s, e);
      case CreateUser(_) => CreationKeepsInv(l, s, e);
      case Terminate => TerminateKeepsInv(l, s);
      case Dispatch(context) => DispatchKeepsInv(l, s, context);
      case Execute(mem) => ExecuteKeepsInv(l, s, mem);
    }
  }

  lemma CreationKeepsInv(l: Layout, s: System, e: Event)
    requires Inv(l, s) && Enabled(l, s, e) && (e.CreateKernel? || e.CreateUser?)
    ensures Inv(l, Step(l, s, e))
  {
    CreationStep(l, s, e);
    hide Step, Admission;
    if Step(l, s, e) != s {
      AdmissionKeeps(l, s, Step(l, s, e));
    }
  }

  /** The system after a list of events; the invariant holds wherever a run leads. */
  ghost function Run(l: Layout, s: System, events: seq<Event>): (r: System)
    requires Inv(l, s)
    ensures Inv(l, r)
    decreases |events|
  {
    if events == [] then s
    else
      StepKeepsInv(l, s, events[0]);
      Run(l, Step(l, s, events[0]), events[1..])
  }

  /** Any layout of the image, any initial memory, any table size. */
  ghost predicate Bootable(l: Layout, mem: seq<Word>, n: nat) {
    LayoutOk(l) && |mem| == MEM_WORDS && 1 <= n < 0x8000_0000
  }

  /** Such layouts exist: the image at 1 MiB with its tables and stack on pages of their own. */
  lemma LayoutsExist()
    ensures LayoutOk(Layout(0x10_1000, 0x10_2000, 0x10_6000, 0x10_0000, 0x10_7000))
  {
    WrapSmall(0x10_6000 + 4036);
  }

  /** The system after pmm_init, init_paging and scheduler_init over any memory. */
  ghost function Started(l: Layout, info: BootInfo, mem: seq<Word>, n: nat): System
    requires Bootable(l, mem, n)
  {
    BootFreeBounds(info, l.kernelEnd);
    var t := Table(Pool(BootFree(info, l.kernelEnd), BootHighest(info)), PagingStarted(mem, Pd(l), Tb(l)),
                   seq(n, _ => EMPTY_SLOT), 1, 0, 0);
    System(SystemStarted(l, t), l.pageDirectory, Resume(0, 0), seq(n, _ => EmptyFrame()), 0, 0, 0, 0, 0)
  }

  /** A page off the bootstrap context keeps its words at start-up. */
  lemma StartKeeps(l: Layout, m: seq<Word>, page: nat)
    requires LayoutOk(l) && |m| == MEM_WORDS && (page == Pd(l) || Tb(l) <= page < Tb(l) + 4)
    ensures page < MAX_FRAMES && SamePage(m, WithFrame(m, BootstrapContext(l), EmptyFrame()), page)
  {
    BootContextWords(l);
    hide WithFrame;
    FrameLeavesPage(m, BootstrapContext(l), EmptyFrame(), page);
  }

  lemma StartsMapped(l: Layout, s: System, m: seq<Word>)
    requires TableOk(s.t) && LayoutOk(l) && s.users == s.latestCode == s.latestStack == 0
    requires |m| == MEM_WORDS && KernelMapped(m, Pd(l), Tb(l))
    requires s.t.mem == WithFrame(m, BootstrapContext(l), EmptyFrame())
    ensures WindowOk(l, s) && DirectoryOk(l, s.t.mem, l.pageDirectory, false)
  {
    hide WithFrame, MakeEntry, EmptyFrame, BootstrapContext, LayoutOk;
    StartPages(l);
    StartKeeps(l, m, Pd(l));
    forall i | 0 <= i < 1024 ensures Entry(s.t.mem, Pd(l), i) == SlotWord(l, Pd(l), false, i) {
      assert Entry(m, Pd(l), i) == KernelEntry(Pd(l), Tb(l), i);
      assert Entry(s.t.mem, Pd(l), i) == Entry(m, Pd(l), i);
    }
    forall p | 0 <= p < 4096 ensures WindowEntry(l, s.t.mem, p) == MakeEntry(p, false) {
      StartKeeps(l, m, Tb(l) + p / 1024);
      assert IsIdentityTable(m, Tb(l), p / 1024);
      assert Entry(m, Tb(l) + p / 1024, p % 1024) == IdentityTable(p / 1024)[p % 1024];
    }
  }

  lemma StartsWell(l: Layout, info: BootInfo, mem: seq<Word>, n: nat)
    requires Bootable(l, mem, n)
    ensures Inv(l, Started(l, info, mem, n))
  {
    hide WithFrame, PagingStarted, BootFree, BootHighest, DirectoryOk, WindowOk, EmptyFrame, BootstrapContext;
    hide KernelStackTop;
    hide LayoutOk, WellFormed, PagesOf, Taken, MakeEntry, FrameAt, FrameAddress, KernelMapped;
    var s := Started(l, info, mem, n);
    BootFreeBounds(info, l.kernelEnd);
    BoundedSetSize(s.t.pool.free, MAX_PAGES);
    StartPages(l);
    PagingStartsMapped(mem, Pd(l), Tb(l));
    StartsMapped(l, s, PagingStarted(mem, Pd(l), Tb(l)));
    assert PoolAbove(l, s.t.pool);
    assert forall i :: 1 <= i < n ==> s.t.slots[i] == EMPTY_SLOT;
  }

  lemma StartPages(l: Layout)
    requires LayoutOk(l)
    ensures TablesPlaced(Pd(l), Tb(l)) && Tb(l) + 4 <= MAX_FRAMES && Aligned(l.pageDirectory)
  {
  }

  /** The start of every run. */
  ghost function Boot(l: Layout, info: BootInfo, mem: seq<Word>, n: nat): (s: System)
    requires Bootable(l, mem, n)
    ensures Inv(l, s) && s.kernels == s.users == 0
  {
    StartsWell(l, info, mem, n);
    Started(l, info, mem, n)
  }

  // -------------------------------------------------------- every run: pages

  /**
   In every reachable state the pages of all slots in use, exited ones
   included, are nonzero, outside the kernel image, not free, pairwise
   distinct within a slot and not shared between slots.
   */
  lemma PagesNeverShared(l: Layout, info: BootInfo, mem: seq<Word>, n: nat, events: seq<Event>, i: nat, j: nat)
    requires Bootable(l, mem, n)
    ensures var t := Run(l, Boot(l, info, mem, n), events).t;
            && (InUse(t, i) ==>
                  && |PagesOf(t.slots[i])| == (if t.slots[i].user then 4 else 2)
                  && forall p :: p in PagesOf(t.slots[i]) ==> 0 < KernelPages(l) <= p < MAX_PAGES && p !in t.pool.free)
            && (InUse(t, i) && InUse(t, j) && i != j ==> PagesOf(t.slots[i]) !! PagesOf(t.slots[j]))
  {
    var t := Run(l, Boot(l, info, mem, n), events).t;
    if InUse(t, i) {
      PageCount(t.slots[i]);
      assert Taken(l, t.pool, PagesOf(t.slots[i]));
    }
  }

  /** No page ever comes back: creations account for every page that leaves the pool. */
  lemma {:induction false} PagesAreConserved(l: Layout, s: System, events: seq<Event>)
    requires Inv(l, s)
    ensures var r := Run(l, s, events);
            && r.kernels >= s.kernels && r.users >= s.users
            && |r.t.pool.free| + 2 * r.kernels + 4 * r.users == |s.t.pool.free| + 2 * s.kernels + 4 * s.users
    decreases |events|
  {
    if events != [] {
      StepConserves(l, s, events[0]);
      StepKeepsInv(l, s, events[0]);
      PagesAreConserved(l, Step(l, s, events[0]), events[1..]);
    }
  }

  lemma StepConserves(l: Layout, s: System, e: Event)
    requires Inv(l, s)
    ensures var r := Step(l, s, e);
            && r.kernels >= s.kernels && r.users >= s.users
            && |r.t.pool.free| + 2 * r.kernels + 4 * r.users == |s.t.pool.free| + 2 * s.kernels + 4 * s.users
  {
    match e
    case CreateKernel(entry, argument) => CreatedTakesTwo(l, s.t, entry, argument);
    case CreateUser(image) => CreatedUserTakesFour(l, s.t, image);
    case Dispatch(context) =>
      if Enabled(l, s, e) {
        DispatchShape(l, s, context);
      }
    case _ =>
  }

  // --------------------------------------------------------- every run: pids

  /**
   Pids never repeat in any run, and the 32-bit counter cannot wrap: each
   creation keeps at least two of fewer than 2^20 pages for good.
   */
  lemma PidsNeverRepeat(l: Layout, info: BootInfo, mem: seq<Word>, n: nat, events: seq<Event>, i: nat, j: nat)
    requires Bootable(l, mem, n)
    ensures var s := Run(l, Boot(l, info, mem, n), events);
            && s.t.nextPid == 1 + s.kernels + s.users <= 0x8_0001
            && (i < |s.t.slots| && j < |s.t.slots| && i != j
                && s.t.slots[i].state != Unused && s.t.slots[j].state != Unused ==>
                  s.t.slots[i].pid != s.t.slots[j].pid)
  {
    var s := Run(l, Boot(l, info, mem, n), events);
    if i < |s.t.slots| && j < |s.t.slots| && i != j && s.t.slots[i].state != Unused && s.t.slots[j].state != Unused {
      assert i != 0 ==> InUse(s.t, i);
      assert j != 0 ==> InUse(s.t, j);
    }
  }

  /** No slot that could be dispatched has the pid. */
  ghost predicate Gone(s: System, pid: Word) {
    pid < s.t.nextPid && forall i :: 0 <= i < |s.t.slots| && Runnable(s.t.slots[i]) ==> s.t.slots[i].pid != pid
  }

  lemma StepKeepsGone(l: Layout, s: System, e: Event, pid: Word)
    requires Inv(l, s) && Gone(s, pid)
    ensures Gone(Step(l, s, e), pid)
  {
    if Enabled(l, s, e) {
      match e
      case CreateKernel(_, _) => CreationKeepsGone(l, s, e, pid);
      case CreateUser(_) => CreationKeepsGone(l, s, e, pid);
      case Dispatch(context) => DispatchKeepsGone(l, s, context, pid);
      case Terminate =>
      case Execute(_) =>
    }
  }

  lemma CreationKeepsGone(l: Layout, s: System, e: Event, pid: Word)
    requires Inv(l, s) && Gone(s, pid) && Enabled(l, s, e) && (e.CreateKernel? || e.CreateUser?)
    ensures Gone(Step(l, s, e), pid)
  {
    CreationStep(l, s, e);
    hide Step, Admission;
    if Step(l, s, e) != s {
      AdmissionKeeps(l, s, Step(l, s, e));
      hide Inv;
    }
  }

  lemma DispatchKeepsGone(l: Layout, s: System, context: Word, pid: Word)
    requires Inv(l, s) && Gone(s, pid) && Enabled(l, s, Dispatch(context))
    ensures Gone(Step(l, s, Dispatch(context)), pid)
  {
    hide Step, Enabled, Effect, Inv, WithFrame, FrameAt, Switches, KernelStackTop;
    EnabledDispatch(l, s, context);
    DispatchShape(l, s, context);
  }

  lemma EnabledDispatch(l: Layout, s: System, context: Word)
    requires Inv(l, s) && Enabled(l, s, Dispatch(context))
    ensures Shape(l, s) && ContextPlaced(l, s.t, context) && FrameAddress(context)
    ensures Step(l, s, Dispatch(context)) == Effect(l, s, Dispatch(context))
  {
    hide Effect;
  }

  /** A pid that has exited is never dispatched again, whatever the run does. */
  lemma {:induction false} ExitedNeverRuns(l: Layout, s: System, events: seq<Event>, pid: Word)
    requires Inv(l, s) && Gone(s, pid)
    ensures var r := Run(l, s, events);
            Gone(r, pid) && (r.t.slots[r.t.running].state == Running ==> r.t.slots[r.t.running].pid != pid)
    decreases |events|
  {
    if events != [] {
      StepKeepsGone(l, s, events[0], pid);
      StepKeepsInv(l, s, events[0]);
      ExitedNeverRuns(l, Step(l, s, events[0]), events[1..], pid);
    }
  }

  /** Exiting makes the running process's pid gone, unless it is the bootstrap process. */
  lemma ExitMakesGone(l: Layout, s: System)
    requires Inv(l, s) && s.t.running != 0
    ensures Gone(Step(l, s, Terminate), s.t.slots[s.t.running].pid)
  {
    var pid := s.t.slots[s.t.running].pid;
    assert InUse(s.t, s.t.running);
    var s' := Step(l, s, Terminate);
    forall i | 0 <= i < |s'.t.slots| && Runnable(s'.t.slots[i]) ensures s'.t.slots[i].pid != pid {
      assert i != s.t.running && (i != 0 ==> InUse(s.t, i));
    }
  }

  // ------------------------------------------------- every run: dispatching

  /** The TSS stack and the loaded directory are always those of the running slot. */
  lemma StackAndSpaceFollow(l: Layout, info: BootInfo, mem: seq<Word>, n: nat, events: seq<Event>)
    requires Bootable(l, mem, n)
    ensures var s := Run(l, Boot(l, info, mem, n), events);
            var r := s.t.slots[s.t.running];
            && s.t.esp0 == (if s.t.running == 0 then l.bootstrapStack else r.stackBase) + 4096
            && s.cr3 == r.directory
            && Runnable(s.t.slots[0])
            && (r.state == Running || (r.state == Zombie && s.t.running != 0))
  {
    var s := Run(l, Boot(l, info, mem, n), events);
    StackTopsFit(l, s);
    hide Boot, Run, Inv;
  }

  lemma StackTopsFit(l: Layout, s: System)
    requires Inv(l, s)
    ensures var r := s.t.slots[s.t.running];
            && s.t.esp0 == (if s.t.running == 0 then l.bootstrapStack else r.stackBase) + 4096
            && s.cr3 == r.directory && Runnable(s.t.slots[0])
            && (r.state == Running || (r.state == Zombie && s.t.running != 0))
  {
    hide FramesOk, MapsOk, LatestOk, PagesDisjoint, PidsOk, PoolAbove;
    if s.t.running == 0 {
      WrapSmall(l.bootstrapStack + 4096);
    } else {
      assert InUse(s.t, s.t.running);
      PointerIndex(s.t.slots[s.t.running].stackBase);
      WrapSmall(s.t.slots[s.t.running].stackBase + 4096);
    }
  }

  /**
   A switch changes nothing but what it must: the next slot becomes running, the
   running slot's own context takes the words handed over, and every other slot,
   word of memory and page stays as it is.
   */
  lemma DispatchTouchesOnly(l: Layout, s: System, context: Word)
    requires Inv(l, s) && Enabled(l, s, Dispatch(context))
    requires Step(l, s, Dispatch(context)).t.running != s.t.running
    ensures FrameAddress(context) && FrameAddress(s.t.slots[s.t.running].context)
    ensures var s', own := Step(l, s, Dispatch(context)), s.t.slots[s.t.running].context;
            var next := s'.t.running;
            && next < |s.t.slots| && s'.t.slots == s.t.slots[next := s.t.slots[next].(state := Running)]
            && s'.t.pool == s.t.pool && s'.t.nextPid == s.t.nextPid && |s'.t.mem| == |s.t.mem|
            && s'.kernels == s.kernels && s'.users == s.users && s'.latestUser == s.latestUser
            && FrameAt(s'.t.mem, own) == FrameAt(s.t.mem, context)
            && forall k :: 0 <= k < MEM_WORDS && !(own / 4 <= k < own / 4 + 15) ==> s'.t.mem[k] == s.t.mem[k]
  {
    hide Step, Enabled, Effect, Inv, Switches, KernelStackTop, ContextPlaced;
    EnabledDispatch(l, s, context);
    DispatchShape(l, s, context);
    OwnContextInMemory(l, s);
    KeptInMemory(s.t.mem, s.t.slots[s.t.running].context, FrameAt(s.t.mem, context));
    hide WithFrame, FrameAt;
  }

  lemma OwnContextInMemory(l: Layout, s: System)
    requires Inv(l, s)
    ensures FrameAddress(s.t.slots[s.t.running].context) && |s.t.mem| == MEM_WORDS
  {
    RunningContext(l, s);
  }

  lemma KeptInMemory(m: seq<Word>, at: Word, frame: seq<Word>)
    requires |m| == MEM_WORDS && FrameAddress(at) && |frame| == FRAME_WORDS
    ensures var m' := WithFrame(m, at, frame);
            && FrameAt(m', at) == frame
            && forall k :: 0 <= k < MEM_WORDS && !(at / 4 <= k < at / 4 + 15) ==> m'[k] == m[k]
  {
  }

  /** The next slot is the first one after the running slot, in circular order, that is ready or running. */
  lemma DispatchGoesRound(l: Layout, s: System, context: Word) returns (step: nat)
    requires Inv(l, s) && Enabled(l, s, Dispatch(context))
    requires Step(l, s, Dispatch(context)).t.running != s.t.running
    ensures var n, from := |s.t.slots|, s.t.running;
            && 1 <= step < n && Step(l, s, Dispatch(context)).t.running == (from + step) % n
            && (s.t.slots[(from + step) % n].state == Ready || s.t.slots[(from + step) % n].state == Running)
            && forall k :: 1 <= k < step ==> PassedBy(s.t.slots, from, k)
  {
    hide Step, Enabled, Effect, Inv, Switches, KernelStackTop, ContextPlaced, WithFrame, FrameAt, ContextSaved;
    EnabledDispatch(l, s, context);
    var t := ContextSaved(l, s.t, context);
    RoundRobinHere(l, s, context);
    var first := FirstStep(t.slots, s.t.running, 1);
    step := first.value;
    RoundRobinTakes(l, t, step);
    AroundIsMod(|t.slots|, s.t.running, step);
    forall k | 1 <= k < step ensures PassedBy(t.slots, s.t.running, k) {
      AroundIsMod(|t.slots|, s.t.running, k);
      assert !Runnable(t.slots[Around(|t.slots|, s.t.running, k)]);
    }
  }

  /** The slot k places on is unused or has exited. */
  predicate PassedBy(slots: seq<Slot>, from: nat, k: nat) {
    |slots| > 0
    && var i := (from + k) % |slots|;
       slots[i].state == Unused || slots[i].state == Zombie
  }

  lemma RoundRobinHere(l: Layout, s: System, context: Word)
    requires Inv(l, s) && ContextPlaced(l, s.t, context) && Shape(l, s) && FrameAddress(context)
    requires Effect(l, s, Dispatch(context)).t.running != s.t.running
    ensures var t := ContextSaved(l, s.t, context);
            && Effect(l, s, Dispatch(context)).t == RoundRobin(l, t) && t.slots == s.t.slots && t.running == s.t.running
            && FirstStep(t.slots, t.running, 1).Some? && FirstStep(t.slots, t.running, 1).value < |t.slots|
  {
    SavedShape(l, s, context);
    hide Inv, WithFrame, FrameAt, ContextSaved, KernelStackTop, ContextPlaced;
  }

  /**
   A dispatch returns its argument with nothing switched, or resumes the
   context and directory of one other slot that could run.  The pointer to that
   context leads to it through that directory, and for the bootstrap process
   and user processes it still holds what was last saved.
   */
  lemma DispatchResumesSaved(l: Layout, s: System, context: Word)
    requires Inv(l, s) && Enabled(l, s, Dispatch(context))
    ensures var s' := Step(l, s, Dispatch(context));
            var next := s'.t.slots[s'.t.running];
            if s'.t.running == s.t.running then s' == s.(resume := Resume(context, 0))
            else
              && Switches(s.t) && Runnable(s.t.slots[s'.t.running]) && next.state == Running
              && s'.resume == Resume(next.context, next.directory) && s'.resume.directory != 0
              && FrameAddress(next.context) && FrameReached(s'.t.mem, next.directory, next.context)
              && (next.bootstrap || next.user ==>
                    FrameAt(s'.t.mem, next.context) == s.saved[s'.t.running])
              && s'.saved == s.saved[s.t.running := FrameAt(s.t.mem, context)]
  {
    DispatchShape(l, s, context);
    if Switches(s.t) {
      SavingKeepsInv(l, s, context);
      var s1, i := WithContextKept(l, s, context), Step(l, s, Dispatch(context)).t.running;
      ResumeReached(l, s1, i);
      if s.t.slots[i].bootstrap || s.t.slots[i].user {
        assert i != 0 ==> InUse(s1.t, i);
        assert FrameKept(s1, i);
      }
    }
  }

  // --------------------------------------------------------- bounded waiting

  /** Dispatches among the events, counting those that are enabled. */
  ghost function Dispatches(l: Layout, s: System, events: seq<Event>): nat
    requires Inv(l, s)
    decreases |events|
  {
    if events == [] then 0
    else
      StepKeepsInv(l, s, events[0]);
      (if events[0].Dispatch? && Enabled(l, s, events[0]) then 1 else 0)
      + Dispatches(l, Step(l, s, events[0]), events[1..])
  }

  /** Slot w still waits at its old distance, or has been dispatched or come nearer. */
  ghost predicate StillInLine(s: System, s': System, w: nat)
    requires w < |s.t.slots| && s.t.running < |s.t.slots|
  {
    && |s'.t.slots| == |s.t.slots| && s'.t.running == s.t.running && Runnable(s'.t.slots[w])
  }

  ghost predicate Nearer(s: System, s': System, w: nat)
    requires w < |s.t.slots| && s.t.running < |s.t.slots|
  {
    && |s'.t.slots| == |s.t.slots| && s'.t.running < |s.t.slots| && Runnable(s'.t.slots[w])
    && (s'.t.running == w || StepsTo(|s.t.slots|, s'.t.running, w) < StepsTo(|s.t.slots|, s.t.running, w))
  }

  lemma RoundRobinNearer(l: Layout, t: Table, w: nat)
    requires t.running < |t.slots| && w < |t.slots| && w != t.running && Runnable(t.slots[w])
    ensures var t', n := RoundRobin(l, t), |t.slots|;
            && |t'.slots| == n && t'.running < n && Runnable(t'.slots[w])
            && (t'.running == w || StepsTo(n, t'.running, w) < StepsTo(n, t.running, w))
  {
    var k := RoundRobinStep(t.slots, t.running, w);
    RoundRobinTakes(l, t, k);
    if k < StepsTo(|t.slots|, t.running, w) {
      StepsShrink(|t.slots|, t.running, w, k);
    }
    hide RoundRobin, FirstStep, Around, StepsTo, KernelStackTop;
  }

  lemma DispatchWhileWaiting(l: Layout, s: System, context: Word, w: nat)
    requires Inv(l, s) && w < |s.t.slots| && w != s.t.running && Runnable(s.t.slots[w])
    requires Enabled(l, s, Dispatch(context))
    ensures Nearer(s, Step(l, s, Dispatch(context)), w)
  {
    hide Inv, Step, Enabled, WithFrame, FrameAt, ContextSaved, RoundRobin, Switches, StepsTo, Runnable;
    EnabledDispatch(l, s, context);
    WaitingMeansSwitch(l, s, w);
    SavedShape(l, s, context);
    RoundRobinNearer(l, ContextSaved(l, s.t, context), w);
  }

  lemma CreationWhileWaiting(l: Layout, s: System, e: Event, w: nat)
    requires Inv(l, s) && w < |s.t.slots| && w != s.t.running && Runnable(s.t.slots[w])
    requires Enabled(l, s, e) && (e.CreateKernel? || e.CreateUser?)
    ensures StillInLine(s, Step(l, s, e), w)
  {
    CreationStep(l, s, e);
    hide Step, Admission;
    if Step(l, s, e) != s {
      AdmissionKeeps(l, s, Step(l, s, e));
      hide Inv;
    }
  }

  /** What one event does to a slot that waits: an enabled dispatch runs it or brings it nearer. */
  lemma StepWhileWaiting(l: Layout, s: System, e: Event, w: nat)
    requires Inv(l, s) && w < |s.t.slots| && w != s.t.running && Runnable(s.t.slots[w])
    ensures if e.Dispatch? && Enabled(l, s, e) then Nearer(s, Step(l, s, e), w) else StillInLine(s, Step(l, s, e), w)
  {
    if Enabled(l, s, e) {
      match e
      case CreateKernel(_, _) => CreationWhileWaiting(l, s, e, w);
      case CreateUser(_) => CreationWhileWaiting(l, s, e, w);
      case Dispatch(context) => DispatchWhileWaiting(l, s, context, w);
      case Terminate =>
      case Execute(_) =>
    }
  }

  /**
   A runnable slot that is not running gets its turn within as many dispatches
   as it is slots away, fewer than the table has, whatever is created, exits
   or runs meanwhile.
   */
  lemma {:induction false} BoundedWaiting(l: Layout, s: System, events: seq<Event>, w: nat) returns (k: nat)
    requires Inv(l, s) && w < |s.t.slots| && w != s.t.running && Runnable(s.t.slots[w])
    requires Dispatches(l, s, events) >= StepsTo(|s.t.slots|, s.t.running, w)
    ensures StepsTo(|s.t.slots|, s.t.running, w) < |s.t.slots|
    ensures k <= |events| && Run(l, s, events[..k]).t.running == w
    decreases |events|
  {
    hide Inv, Step, Enabled, Run, Dispatches, StepsTo;
    InLine(l, s, w, events);
    var s' := Step(l, s, events[0]);
    StepKeepsInv(l, s, events[0]);
    StepWhileWaiting(l, s, events[0], w);
    DispatchesStep(l, s, events);
    if s'.t.running == w {
      k := 1;
      RunStep(l, s, events, 0);
    } else {
      var j := BoundedWaiting(l, s', events[1..], w);
      RunStep(l, s, events, j);
      k := j + 1;
    }
  }

  lemma InLine(l: Layout, s: System, w: nat, events: seq<Event>)
    requires Inv(l, s) && w < |s.t.slots| && w != s.t.running
    ensures Shape(l, s) && s.t.running < |s.t.slots| && 0 < StepsTo(|s.t.slots|, s.t.running, w) < |s.t.slots|
    ensures events == [] ==> Dispatches(l, s, events) == 0
  {
  }

  lemma DispatchesStep(l: Layout, s: System, events: seq<Event>)
    requires Inv(l, s) && events != [] && Inv(l, Step(l, s, events[0]))
    ensures Dispatches(l, s, events)
            == (if events[0].Dispatch? && Enabled(l, s, events[0]) then 1 else 0)
               + Dispatches(l, Step(l, s, events[0]), events[1..])
  {
    hide Inv, Step, Enabled;
  }

  /** Running j events after the first is running j + 1 events. */
  lemma RunStep(l: Layout, s: System, events: seq<Event>, j: nat)
    requires Inv(l, s) && j < |events| && Inv(l, Step(l, s, events[0]))
    ensures Run(l, s, events[..j + 1]) == Run(l, Step(l, s, events[0]), events[1..][..j])
    ensures j == 0 ==> Run(l, s, events[..1]) == Step(l, s, events[0])
  {
    hide Inv, Step;
    assert events[..j + 1][1..] == events[1..][..j];
  }

  // ---------------------------------------------------- shared user mapping

  /** Where every directory's walk of a window address ends. */
  lemma WindowWalk(l: Layout, s: System, i: nat, p: nat)
    requires Inv(l, s) && InUse(s.t, i) && s.t.slots[i].user && (p == CODE_SLOT || p == STACK_SLOT)
    ensures Translate(s.t.mem, s.t.slots[i].directory / 0x1000, 0x1000 * p) == To(WindowPage(s, p), true)
  {
    var dir := s.t.slots[i].directory / 0x1000;
    assert DirectoryOk(l, s.t.mem, s.t.slots[i].directory, true);
    assert Entry(s.t.mem, dir, 1) == SlotWord(l, dir, true, 1) == MakeEntry(Tb(l) + 1, true);
    assert WindowEntry(l, s.t.mem, p) == MakeEntry(WindowPage(s, p), true);
    EntryDigits(Tb(l) + 1, true);
    EntryDigits(WindowPage(s, p), true);
    WindowIndexes(p);
    hide Inv, DirectoryOk, MakeEntry, Present, Frame, UserBit, Entry, DirIndex, TableIndex;
  }

  lemma WindowIndexes(p: nat)
    requires p == CODE_SLOT || p == STACK_SLOT
    ensures DirIndex(0x1000 * p) == 1 == p / 1024 && TableIndex(0x1000 * p) == p % 1024
  {
  }

  /**
   Directory slot 1 is one table shared by all directories, so in every state
   each user process reaches the pages of the newest user process at the user
   code and stack addresses.
   */
  lemma UserAddressesShowNewest(l: Layout, s: System, i: nat)
    requires Inv(l, s) && InUse(s.t, i) && s.t.slots[i].user
    ensures Translate(s.t.mem, s.t.slots[i].directory / 0x1000, USER_CODE_ADDRESS) == To(s.latestCode, true)
    ensures Translate(s.t.mem, s.t.slots[i].directory / 0x1000, USER_STACK_TOP - 4096) == To(s.latestStack, true)
  {
    WindowWalk(l, s, i, CODE_SLOT);
    WindowWalk(l, s, i, STACK_SLOT);
    hide MapsOk, FramesOk, Translate;
  }

  lemma UserPagesDiffer(l: Layout, s: System, i: nat, j: nat)
    requires Inv(l, s) && InUse(s.t, i) && InUse(s.t, j) && i != j && s.t.slots[i].user && s.t.slots[j].user
    ensures s.t.slots[i].codeBase / 0x1000 != s.t.slots[j].codeBase / 0x1000
  {
    assert s.t.slots[i].codeBase / 0x1000 in PagesOf(s.t.slots[i]);
    assert s.t.slots[j].codeBase / 0x1000 in PagesOf(s.t.slots[j]);
    assert PagesOf(s.t.slots[i]) !! PagesOf(s.t.slots[j]);
  }

  /** A slot other than the one creation fills stays in use, and the new slot is in use. */
  lemma UserAdmission(l: Layout, s: System, image: Option<seq<Byte>>, j: nat) returns (i: nat)
    requires Inv(l, s) && Enabled(l, s, CreateUser(image)) && CreatedUser(l, s.t, image).1.Some?
    requires InUse(s.t, j) && s.t.slots[j].user && FirstReusable(s.t.slots, 1) != Some(j)
    ensures FirstReusable(s.t.slots, 1) == Some(i)
    ensures var s' := Step(l, s, CreateUser(image));
            && InUse(s'.t, i) && InUse(s'.t, j) && s'.t.slots[i].user && s'.t.slots[j].user && i != j
            && s'.latestCode == s'.t.slots[i].codeBase / 0x1000
  {
    hide CreatedUser, FirstReusable, Elsewhere, WellFormed, DirectoryOk, MakeEntry, InitialFrame, SamePage, PagesOf;
    CreatedUserAdmits(l, s.t, image);
    hide Inv;
    i := FirstReusable(s.t.slots, 1).value;
  }

  /** Creating a user process redirects the user code address of every other user process to the new code page. */
  lemma CreateUserRedirectsOthers(l: Layout, s: System, image: Option<seq<Byte>>, j: nat) returns (i: nat)
    requires Inv(l, s) && Enabled(l, s, CreateUser(image)) && CreatedUser(l, s.t, image).1.Some?
    requires InUse(s.t, j) && s.t.slots[j].user && FirstReusable(s.t.slots, 1) != Some(j)
    ensures FirstReusable(s.t.slots, 1) == Some(i)
    ensures var t := Step(l, s, CreateUser(image)).t;
            && j < |t.slots| && i < |t.slots| && |t.mem| == MEM_WORDS && t.slots[j].directory / 0x1000 < MAX_FRAMES
            && Translate(t.mem, t.slots[j].directory / 0x1000, USER_CODE_ADDRESS)
              == To(t.slots[i].codeBase / 0x1000, true)
            && t.slots[i].codeBase != t.slots[j].codeBase
  {
    hide Step, Translate, CreatedUser, FirstReusable;
    StepKeepsInv(l, s, CreateUser(image));
    i := UserAdmission(l, s, image, j);
    var s' := Step(l, s, CreateUser(image));
    UserPagesDiffer(l, s', i, j);
    UserAddressesShowNewest(l, s', j);
    hide Inv;
  }

  /** User creations along a run and the newest user pid change together. */
  lemma {:induction false} LatestUserFollows(l: Layout, s: System, events: seq<Event>)
    requires Inv(l, s)
    ensures var r := Run(l, s, events);
            && r.users >= s.users && r.t.nextPid >= s.t.nextPid
            && (if r.users == s.users then r.latestUser == s.latestUser else r.latestUser >= s.t.nextPid)
    decreases |events|
  {
    if events != [] {
      LatestUserStep(l, s, events[0]);
      StepKeepsInv(l, s, events[0]);
      LatestUserFollows(l, Step(l, s, events[0]), events[1..]);
    }
  }

  lemma LatestUserStep(l: Layout, s: System, e: Event)
    requires Inv(l, s)
    ensures var r := Step(l, s, e);
            && r.users >= s.users && r.t.nextPid >= s.t.nextPid
            && (if r.users == s.users then r.latestUser == s.latestUser else r.latestUser >= s.t.nextPid)
  {
    if Enabled(l, s, e) {
      match e
      case CreateKernel(_, _) => CreationMovesOn(l, s, e);
      case CreateUser(_) => CreationMovesOn(l, s, e);
      case Dispatch(context) => DispatchShape(l, s, context);
      case _ =>
    }
  }

  lemma CreationMovesOn(l: Layout, s: System, e: Event)
    requires Inv(l, s) && Enabled(l, s, e) && (e.CreateKernel? || e.CreateUser?)
    ensures var r := Step(l, s, e);
            && r.users >= s.users && r.t.nextPid >= s.t.nextPid
            && (if r.users == s.users then r.latestUser == s.latestUser else r.latestUser >= s.t.nextPid)
  {
    CreationStep(l, s, e);
    hide Step, Inv, Enabled;
    var r := Step(l, s, e);
    if r != s {
      var i: nat, frame: seq<Word> :| Admits(l, s.t, r.t, i, frame) && r == Admitted(s, r.t, i, frame);
      AdmissionCounts(l, s, r, i, frame);
    }
  }

  lemma AdmissionCounts(l: Layout, s: System, r: System, i: nat, frame: seq<Word>)
    requires Inv(l, s) && Admits(l, s.t, r.t, i, frame) && r == Admitted(s, r.t, i, frame)
    ensures r.users >= s.users && r.t.nextPid >= s.t.nextPid
    ensures if r.users == s.users then r.latestUser == s.latestUser else r.latestUser >= s.t.nextPid
  {
    WrapSmall(s.t.nextPid + 1);
    hide Elsewhere, DirectoryOk, MapsOk, FramesOk, LatestOk;
  }

  /** The user code address of slot i's process leads to that slot's own code page, in user mode. */
  ghost predicate ReachesOwnCode(s: System, i: nat)
    requires |s.t.mem| == MEM_WORDS && i < |s.t.slots|
  {
    var n := s.t.slots[i];
    Translate(s.t.mem, n.directory / 0x1000, USER_CODE_ADDRESS) == To(n.codeBase / 0x1000, true)
  }

  lemma UserPidIsLatest(l: Layout, s: System, image: Option<seq<Byte>>)
    requires Inv(l, s) && Enabled(l, s, CreateUser(image)) && CreatedUser(l, s.t, image).1.Some?
    ensures var s1 := Step(l, s, CreateUser(image));
            s1.latestUser == s.t.nextPid && s1.t.nextPid == s.t.nextPid + 1
  {
    hide CreatedUser;
    CreatedUserAdmits(l, s.t, image);
    WrapSmall(s.t.nextPid + 1);
    hide Admits, MapsOk, FramesOk, SlotsOk;
  }

  /**
   Whatever a run does after the creation of a user process, that process, if
   it is still in the table, reaches its own code page at the user code address
   exactly when no user process was created since, that is, when its pid is
   that of the last user creation.
   */
  lemma OwnCodeIffNewest(l: Layout, s: System, image: Option<seq<Byte>>, events: seq<Event>, i: nat)
    requires Inv(l, s) && Enabled(l, s, CreateUser(image)) && CreatedUser(l, s.t, image).1.Some?
    ensures var s1, r := Step(l, s, CreateUser(image)), Run(l, s, [CreateUser(image)] + events);
            InUse(r.t, i) && r.t.slots[i].user && r.t.slots[i].pid == s.t.nextPid ==>
              && (ReachesOwnCode(r, i) <==> r.users == s1.users)
              && (r.users == s1.users <==> r.t.slots[i].pid == r.latestUser)
  {
    hide CreatedUser, Enabled;
    var s1, all := Step(l, s, CreateUser(image)), [CreateUser(image)] + events;
    UserPidIsLatest(l, s, image);
    StepKeepsInv(l, s, all[0]);
    assert all[1..] == events;
    LatestUserFollows(l, s1, events);
    var r := Run(l, s1, events);
    assert Run(l, s, all) == r;
    hide Inv, Step, Run, Translate;
    if InUse(r.t, i) && r.t.slots[i].user && r.t.slots[i].pid == s.t.nextPid {
      UserAddressesShowNewest(l, r, i);
    }
  }
}
