/**
 Dispatch: the interrupted context is kept for the running slot, the next
 runnable slot in circular order resumes from its own, and the kernel stack
 and address space follow it.
 */
module Dispatching {
  import opened Options
  import opened Machine
  import opened Memory
  import opened Pmm
  import opened Paging
  import opened Process
  import opened Scheduler
  import opened Runs
  import opened Creation

  // ---------------------------------------------------- circular distance

  /** Round-robin steps from slot i to slot w, 1 to n. */
  function StepsTo(n: nat, i: nat, w: nat): (k: nat)
    requires i < n && w < n
    ensures 1 <= k <= n && Around(n, i, k) == w
    ensures k == n <==> w == i
  {
    if w > i then w - i else w + n - i
  }

  /** Moving forward by fewer steps than remain brings a slot nearer by exactly that many. */
  lemma StepsShrink(n: nat, i: nat, w: nat, k: nat)
    requires i < n && w < n && 1 <= k < StepsTo(n, i, w)
    ensures StepsTo(n, Around(n, i, k), w) == StepsTo(n, i, w) - k
  {
  }

  /** The step round robin takes: it exists, and passes no runnable slot by. */
  lemma RoundRobinStep(slots: seq<Slot>, i: nat, w: nat) returns (k: nat)
    requires i < |slots| && w < |slots| && Runnable(slots[w])
    ensures FirstStep(slots, i, 1) == Some(k) && 1 <= k <= StepsTo(|slots|, i, w)
  {
    var n := |slots|;
    assert Around(n, i, StepsTo(n, i, w)) == w;
    assert FirstStep(slots, i, 1) != None;
    k := FirstStep(slots, i, 1).value;
  }

  /** With another runnable slot, or after an exit, round robin leaves the running slot. */
  lemma SwitchesAway(l: Layout, s: System)
    requires Inv(l, s) && Switches(s.t)
    ensures exists w :: 0 <= w < |s.t.slots| && w != s.t.running && Runnable(s.t.slots[w])
  {
    if s.t.slots[s.t.running].state == Zombie {
      assert Runnable(s.t.slots[0]) && s.t.running != 0;
    } else {
      var rs := Runnables(s.t.slots);
      if forall w :: w in rs ==> w == s.t.running {
        assert rs <= {s.t.running};
        BoundedBySubset(rs, {s.t.running});
        assert false;
      }
    }
  }

  lemma BoundedBySubset(a: set<nat>, b: set<nat>)
    requires a <= b
    ensures |a| <= |b|
  {
    assert b == a + (b - a);
  }

  /** A waiting runnable slot makes every dispatch switch: the count shortcut is not taken. */
  lemma WaitingMeansSwitch(l: Layout, s: System, w: nat)
    requires Inv(l, s) && w < |s.t.slots| && w != s.t.running && Runnable(s.t.slots[w])
    ensures Switches(s.t)
  {
    if s.t.slots[s.t.running].state != Zombie {
      assert {w, s.t.running} <= Runnables(s.t.slots);
      BoundedBySubset({w, s.t.running}, Runnables(s.t.slots));
    }
  }

  // ------------------------------------------------------- saving contexts

  /** The running slot's saved context lies on its own stack page or in the bootstrap stack. */
  ghost predicate OwnContext(l: Layout, s: System)
    requires TableOk(s.t)
  {
    var r := s.t.slots[s.t.running];
    FrameAddress(r.context) && r.context == if s.t.running == 0 then BootstrapContext(l) else TopFrame(r.stackBase)
  }

  lemma RunningContext(l: Layout, s: System)
    requires Inv(l, s)
    ensures OwnContext(l, s) && s.t.slots[s.t.running].context != 0
    ensures s.t.running != 0 ==> InUse(s.t, s.t.running)
  {
    BootContextWords(l);
    if s.t.running != 0 {
      assert InUse(s.t, s.t.running);
      SlotContext(l, s.t, s.t.running);
    }
  }

  lemma SlotContext(l: Layout, t: Table, i: nat)
    requires TableOk(t) && LayoutOk(l) && SlotsOk(l, t) && InUse(t, i)
    ensures var page := t.slots[i].stackBase / 0x1000;
            && page in PagesOf(t.slots[i]) && KernelPages(l) <= page < MAX_FRAMES
            && t.slots[i].context == TopFrame(0x1000 * page) == 0x1000 * page + 4036
            && FrameAddress(t.slots[i].context) && t.slots[i].context != 0
  {
    var page := t.slots[i].stackBase / 0x1000;
    assert WellFormed(t.slots[i]) && Taken(l, t.pool, PagesOf(t.slots[i]));
    PointerIndex(t.slots[i].stackBase);
    TopFrameWords(page);
  }

  /** Saving writes the interrupted context over the running slot's own, and nothing else. */
  lemma SavedShape(l: Layout, s: System, context: Word)
    requires Inv(l, s) && FrameAddress(context)
    ensures OwnContext(l, s)
    ensures ContextSaved(l, s.t, context)
            == s.t.(mem := WithFrame(s.t.mem, s.t.slots[s.t.running].context, FrameAt(s.t.mem, context)))
  {
    RunningContext(l, s);
    var r := s.t.slots[s.t.running];
    if s.t.running == 0 {
      assert s.t.slots[0 := r.(context := BootstrapContext(l))] == s.t.slots;
    } else if r.context == context {
      FrameOverItself(s.t.mem, context);
    }
  }

  lemma FrameOverItself(m: seq<Word>, address: Word)
    requires |m| == MEM_WORDS && FrameAddress(address)
    ensures WithFrame(m, address, FrameAt(m, address)) == m
  {
    var r := WithFrame(m, address, FrameAt(m, address));
    forall k | 0 <= k < |m| ensures r[k] == m[k] {
    }
  }

  /** A frame written at one address leaves the words of any range apart from it. */
  lemma FrameLeavesRange(m: seq<Word>, address: Word, frame: seq<Word>, base: nat, n: nat)
    requires |m| == MEM_WORDS && FrameAddress(address) && |frame| == FRAME_WORDS && base + n <= MEM_WORDS
    requires Apart(address / 4, FRAME_WORDS, base, n)
    ensures forall k :: base <= k < base + n ==> WithFrame(m, address, frame)[k] == m[k]
  {
  }

  lemma FrameLeavesFrame(m: seq<Word>, address: Word, frame: seq<Word>, other: Word)
    requires |m| == MEM_WORDS && FrameAddress(address) && |frame| == FRAME_WORDS && FrameAddress(other)
    requires Apart(address / 4, FRAME_WORDS, other / 4, FRAME_WORDS)
    ensures FrameAt(WithFrame(m, address, frame), other) == FrameAt(m, other)
  {
    FrameLeavesRange(m, address, frame, other / 4, FRAME_WORDS);
    SameWordsSameFrame(m, WithFrame(m, address, frame), other);
  }

  lemma FrameLeavesPage(m: seq<Word>, address: Word, frame: seq<Word>, page: nat)
    requires |m| == MEM_WORDS && FrameAddress(address) && |frame| == FRAME_WORDS && page < MAX_FRAMES
    requires Apart(address / 4, FRAME_WORDS, 1024 * page, 1024)
    ensures SamePage(m, WithFrame(m, address, frame), page)
  {
    FrameLeavesRange(m, address, frame, 1024 * page, 1024);
  }

  lemma FrameReadBack(m: seq<Word>, address: Word, frame: seq<Word>)
    requires |m| == MEM_WORDS && FrameAddress(address) && |frame| == FRAME_WORDS
    ensures FrameAt(WithFrame(m, address, frame), address) == frame
  {
  }

  /** Contexts of two different slots do not overlap. */
  lemma ContextsApart(l: Layout, s: System, i: nat, j: nat)
    requires Inv(l, s) && i != j && (i == 0 || InUse(s.t, i)) && (j == 0 || InUse(s.t, j))
    ensures var a, b := s.t.slots[i].context, s.t.slots[j].context;
            FrameAddress(a) && FrameAddress(b) && a != b && Apart(a / 4, FRAME_WORDS, b / 4, FRAME_WORDS)
  {
    hide MapsOk, ReachOk, LatestOk, FramesOk, PidsOk, RunningOk, PoolAbove;
    BootContextWords(l);
    if i != 0 {
      SlotContext(l, s.t, i);
      TopFrameWords(s.t.slots[i].stackBase / 0x1000);
    }
    if j != 0 {
      SlotContext(l, s.t, j);
      TopFrameWords(s.t.slots[j].stackBase / 0x1000);
    }
    if i != 0 && j != 0 {
      assert PagesOf(s.t.slots[i]) !! PagesOf(s.t.slots[j]);
    }
  }

  /** A slot's context does not overlap a page table of the kernel or any slot's directory. */
  lemma ContextOffTables(l: Layout, s: System, i: nat, page: nat)
    requires Inv(l, s) && (i == 0 || InUse(s.t, i)) && page < MAX_FRAMES
    requires
      || page == Pd(l) || Tb(l) <= page < Tb(l) + 4
      || exists j :: InUse(s.t, j) && page == s.t.slots[j].directory / 0x1000
    ensures FrameAddress(s.t.slots[i].context) && Apart(s.t.slots[i].context / 4, FRAME_WORDS, 1024 * page, 1024)
  {
    BootContextWords(l);
    var stack := 0;
    if i != 0 {
      SlotContext(l, s.t, i);
      stack := s.t.slots[i].stackBase / 0x1000;
      TopFrameWords(stack);
    }
    if page != Pd(l) && !(Tb(l) <= page < Tb(l) + 4) {
      var j :| InUse(s.t, j) && page == s.t.slots[j].directory / 0x1000;
      DirectoryOffStacks(l, s.t, i, j);
    }
    hide Inv, TopFrame, FrameAddress;
  }

  /** A slot's directory lies above the kernel and is no slot's stack. */
  lemma DirectoryOffStacks(l: Layout, t: Table, i: nat, j: nat)
    requires TableOk(t) && LayoutOk(l) && SlotsOk(l, t) && PagesDisjoint(t) && (i == 0 || InUse(t, i)) && InUse(t, j)
    ensures KernelPages(l) <= t.slots[j].directory / 0x1000 < MAX_FRAMES
    ensures i != 0 ==> t.slots[i].stackBase / 0x1000 != t.slots[j].directory / 0x1000
  {
    hide LayoutOk, TopFrame;
    assert t.slots[j].directory / 0x1000 in PagesOf(t.slots[j]) && Taken(l, t.pool, PagesOf(t.slots[j]));
    PointerIndex(t.slots[j].directory);
    if i != 0 {
      assert t.slots[i].stackBase / 0x1000 in PagesOf(t.slots[i]);
      PointerIndex(t.slots[i].stackBase);
    }
  }

  /** The system after the context has been saved but before the next slot is chosen. */
  ghost function WithContextKept(l: Layout, s: System, context: Word): System
    requires Shape(l, s) && FrameAddress(context)
  {
    var r := s.t.slots[s.t.running];
    s.(t := s.t.(mem := WithFrame(s.t.mem, r.context, FrameAt(s.t.mem, context))),
       saved := s.saved[s.t.running := FrameAt(s.t.mem, context)])
  }

  /** No user process was created in between. */
  predicate SameUser(s: System, s': System) {
    && s'.users == s.users && s'.latestUser == s.latestUser
    && s'.latestCode == s.latestCode && s'.latestStack == s.latestStack
  }

  /** Page tables stay in order when their pages do. */
  lemma MapsKept(l: Layout, s: System, s': System)
    requires TableOk(s.t) && LayoutOk(l) && MapsOk(l, s) && TableOk(s'.t) && SameUser(s, s')
    requires forall i :: InUse(s'.t, i) ==>
               && InUse(s.t, i) && s'.t.slots[i].directory == s.t.slots[i].directory
               && s'.t.slots[i].user == s.t.slots[i].user
               && SamePage(s.t.mem, s'.t.mem, s.t.slots[i].directory / 0x1000)
    requires SamePage(s.t.mem, s'.t.mem, Pd(l)) && forall k :: Tb(l) <= k < Tb(l) + 4 ==> SamePage(s.t.mem, s'.t.mem, k)
    ensures MapsOk(l, s')
  {
    hide MakeEntry, DirectoryOk, WellFormed;
    forall p | 0 <= p < 4096 ensures WindowEntry(l, s'.t.mem, p) == MakeEntry(WindowPage(s', p), Redirected(s', p)) {
      assert SamePage(s.t.mem, s'.t.mem, Tb(l) + p / 1024);
      assert WindowEntry(l, s.t.mem, p) == MakeEntry(WindowPage(s, p), Redirected(s, p));
    }
    DirectoryKept(l, s.t.mem, s'.t.mem, l.pageDirectory, false);
    forall i | InUse(s'.t, i) ensures DirectoryOk(l, s'.t.mem, s'.t.slots[i].directory, s'.t.slots[i].user) {
      DirectoryKept(l, s.t.mem, s'.t.mem, s.t.slots[i].directory, s.t.slots[i].user);
    }
  }

  /** What the slots and pids promise does not depend on memory. */
  lemma SlotsIgnoreMemory(l: Layout, s: System, s': System)
    requires TableOk(s.t) && SlotsOk(l, s.t) && PagesDisjoint(s.t) && PidsOk(s)
    requires |s'.t.mem| == MEM_WORDS && s'.t == s.t.(mem := s'.t.mem) && s'.kernels == s.kernels && SameUser(s, s')
    requires ReachOk(s) && LatestOk(s)
    ensures SlotsOk(l, s'.t) && PagesDisjoint(s'.t) && PidsOk(s') && ReachOk(s') && LatestOk(s')
  {
    assert forall i :: InUse(s'.t, i) <==> InUse(s.t, i);
  }

  /** Saving leaves every slot in use, the running one included, with its last saved context. */
  lemma SavingKeepsFrames(l: Layout, s: System, context: Word, i: nat)
    requires Inv(l, s) && FrameAddress(context) && i < |s.t.slots|
    requires i == 0 || (InUse(s.t, i) && s.t.slots[i].user)
    ensures FrameKept(WithContextKept(l, s, context), i)
  {
    RunningContext(l, s);
    var own, frame := s.t.slots[s.t.running].context, FrameAt(s.t.mem, context);
    FrameReadBack(s.t.mem, own, frame);
    hide WithFrame;
    if i != s.t.running {
      ContextsApart(l, s, s.t.running, i);
      FrameLeavesFrame(s.t.mem, own, frame, s.t.slots[i].context);
      assert FrameKept(s, i);
    }
  }

  lemma SavingKeepsInv(l: Layout, s: System, context: Word)
    requires Inv(l, s) && FrameAddress(context)
    ensures Inv(l, WithContextKept(l, s, context))
    ensures var s' := WithContextKept(l, s, context);
            FrameKept(s', 0) && forall i :: InUse(s'.t, i) && s'.t.slots[i].user ==> FrameKept(s', i)
  {
    var s' := WithContextKept(l, s, context);
    forall i: nat | i < |s.t.slots| && (i == 0 || (InUse(s'.t, i) && s.t.slots[i].user)) ensures FrameKept(s', i) {
      assert i != 0 ==> InUse(s.t, i);
      SavingKeepsFrames(l, s, context, i);
    }
    SavingKeepsMaps(l, s, context);
    SlotsIgnoreMemory(l, s, s');
  }

  lemma SavingKeepsMaps(l: Layout, s: System, context: Word)
    requires Inv(l, s) && FrameAddress(context)
    ensures MapsOk(l, WithContextKept(l, s, context))
  {
    RunningContext(l, s);
    var s' := WithContextKept(l, s, context);
    var own, frame := s.t.slots[s.t.running].context, FrameAt(s.t.mem, context);
    hide WithFrame, FrameAt, MapsOk, FramesOk;
    ContextOffTables(l, s, s.t.running, Pd(l));
    FrameLeavesPage(s.t.mem, own, frame, Pd(l));
    forall k | Tb(l) <= k < Tb(l) + 4 ensures SamePage(s.t.mem, s'.t.mem, k) {
      ContextOffTables(l, s, s.t.running, k);
      FrameLeavesPage(s.t.mem, own, frame, k);
    }
    forall i | InUse(s'.t, i)
      ensures InUse(s.t, i) && SamePage(s.t.mem, s'.t.mem, s.t.slots[i].directory / 0x1000)
    {
      assert InUse(s.t, i);
      var page := s.t.slots[i].directory / 0x1000;
      ContextOffTables(l, s, s.t.running, page);
      FrameLeavesPage(s.t.mem, own, frame, page);
    }
    MapsKept(l, s, s');
  }

  // ---------------------------------------------------- choosing the next

  /** Changing only the state of a slot in use, what runs and where leaves the table sound. */
  lemma StateChanged(l: Layout, s: System, s': System, i: nat, state: State)
    requires Inv(l, s) && TableOk(s'.t) && |s'.saved| == |s.t.slots|
    requires if i == 0 then state == Running else InUse(s.t, i) && state != Unused
    requires s'.t
             == s.t.(slots := s.t.slots[i := s.t.slots[i].(state := state)], running := s'.t.running, esp0 := s'.t.esp0)
    requires s'.kernels == s.kernels && SameUser(s, s')
    ensures SlotsOk(l, s'.t) && PagesDisjoint(s'.t) && PidsOk(s') && MapsOk(l, s') && ReachOk(s') && LatestOk(s')
    ensures forall j :: InUse(s'.t, j) <==> InUse(s.t, j)
  {
    hide WellFormed, PagesOf, Taken, DirectoryOk, RunningOk, FramesOk, LayoutOk, InWindow;
    var n := s'.t.slots;
    forall j | 0 <= j < |n| ensures n[j] == s.t.slots[j].(state := n[j].state) {}
    SameWindow(l, s, s');
    TablesLow(l);
    assert forall j :: InUse(s'.t, j) <==> InUse(s.t, j);
    forall j | InUse(s'.t, j)
      ensures WellFormed(n[j]) && Taken(l, s'.t.pool, PagesOf(n[j])) && PagesOf(n[j]) == PagesOf(s.t.slots[j])
      ensures 1 <= n[j].pid < s'.t.nextPid && DirectoryOk(l, s'.t.mem, n[j].directory, n[j].user)
    {
      assert InUse(s.t, j);
      StateKeepsPages(s.t.slots[j], n[j].state);
    }
  }

  lemma TablesLow(l: Layout)
    requires LayoutOk(l)
    ensures Tb(l) + 4 <= 4096
  {
  }

  lemma StateKeepsPages(n: Slot, state: State)
    ensures WellFormed(n.(state := state)) <==> WellFormed(n)
    ensures PagesOf(n.(state := state)) == PagesOf(n)
  {
  }

  lemma SameWindow(l: Layout, s: System, s': System)
    requires TableOk(s.t) && TableOk(s'.t) && LayoutOk(l) && SameUser(s, s') && s'.t.mem == s.t.mem
    ensures WindowOk(l, s) ==> WindowOk(l, s')
    ensures forall p: nat :: InWindow(s', p) <==> InWindow(s, p)
  {
    hide MakeEntry, WindowEntry, LayoutOk;
  }

  /** The hardware's context for ring 3 is the slot's own. */
  lemma UserContext(l: Layout, s: System)
    requires Inv(l, s) && s.t.running != 0
    ensures Wrap32(s.t.esp0 - 60) == s.t.slots[s.t.running].context
  {
    var r := s.t.slots[s.t.running];
    assert InUse(s.t, s.t.running);
    SlotContext(l, s.t, s.t.running);
    var page := r.stackBase / 0x1000;
    PointerIndex(r.stackBase);
    WrapSmall(r.stackBase + 4096);
    WrapSmall(r.stackBase + 4036);
  }

  /** Where the interrupted context lies, no other slot keeps its own. */
  lemma ContextIsNotAnothers(l: Layout, s: System, context: Word, i: nat)
    requires Inv(l, s) && ContextPlaced(l, s.t, context) && i != s.t.running && (i == 0 || InUse(s.t, i))
    ensures s.t.slots[i].context != context
  {
    var r := s.t.slots[s.t.running];
    if r.user && r.state == Running {
      UserContext(l, s);
      assert InUse(s.t, s.t.running);
      ContextsApart(l, s, s.t.running, i);
    }
  }

  /** The system after slot i has been chosen to run. */
  ghost function Chosen(l: Layout, s: System, i: nat): System
    requires Shape(l, s) && i < |s.t.slots|
  {
    var next := s.t.slots[i].(state := Running);
    s.(t := s.t.(slots := s.t.slots[i := next], running := i, esp0 := KernelStackTop(l, next)),
       resume := Resume(next.context, next.directory), cr3 := next.directory)
  }

  /**
   A dispatch either resumes its argument with nothing changed, or moves to
   another slot that was runnable, resumes the context and directory of that
   same slot and points the TSS at its stack.
   */
  lemma DispatchShape(l: Layout, s: System, context: Word)
    requires Inv(l, s) && ContextPlaced(l, s.t, context)
    ensures var s' := Effect(l, s, Dispatch(context));
            if !Switches(s.t) then s' == s.(resume := Resume(context, 0))
            else
              && s'.t.running < |s.t.slots| && s'.t.running != s.t.running && Runnable(s.t.slots[s'.t.running])
              && (s'.t.running == 0 || InUse(s.t, s'.t.running))
              && s' == Chosen(l, WithContextKept(l, s, context), s'.t.running)
              && s'.resume.context != context && s'.resume.directory != 0
  {
    hide MapsOk, ReachOk, LatestOk, FramesOk, LayoutOk, PidsOk, PagesDisjoint, PoolAbove;
    if Switches(s.t) {
      SavedShape(l, s, context);
      SwitchesAway(l, s);
      var w :| 0 <= w < |s.t.slots| && w != s.t.running && Runnable(s.t.slots[w]);
      var k := RoundRobinStep(s.t.slots, s.t.running, w);
      var i := Around(|s.t.slots|, s.t.running, k);
      assert k < |s.t.slots| && i != s.t.running;
      assert i != 0 ==> InUse(s.t, i);
      ContextIsNotAnothers(l, s, context, i);
      ResumeTarget(l, s, i);
      hide Inv, WithFrame, FrameAt, Runnables, FirstStep, Switches, KernelStackTop, ContextPlaced, ContextSaved;
      RoundRobinTakes(l, ContextSaved(l, s.t, context), k);
    }
  }

  lemma RoundRobinTakes(l: Layout, t: Table, k: nat)
    requires t.running < |t.slots| && FirstStep(t.slots, t.running, 1) == Some(k)
    ensures var i := Around(|t.slots|, t.running, k);
            var next := t.slots[i].(state := Running);
            RoundRobin(l, t) == t.(slots := t.slots[i := next], running := i, esp0 := KernelStackTop(l, next))
  {
  }

  lemma ResumeTarget(l: Layout, s: System, i: nat)
    requires Inv(l, s) && (i == 0 || InUse(s.t, i))
    ensures s.t.slots[i].context != 0 && s.t.slots[i].directory != 0
  {
    if i == 0 {
      BootContextWords(l);
    } else {
      SlotContext(l, s.t, i);
      assert s.t.slots[i].directory / 0x1000 in PagesOf(s.t.slots[i]);
    }
  }

  lemma DispatchKeepsInv(l: Layout, s: System, context: Word)
    requires Inv(l, s) && ContextPlaced(l, s.t, context)
    ensures Inv(l, Effect(l, s, Dispatch(context)))
  {
    hide Effect, WithContextKept, Chosen, Inv, Switches, ContextPlaced, FrameKept;
    InPlace(l, s, context);
    DispatchShape(l, s, context);
    var s' := Effect(l, s, Dispatch(context));
    if Switches(s.t) {
      SavingKeepsInv(l, s, context);
      SavingKeepsSlots(l, s, context);
      ChosenKeepsInv(l, WithContextKept(l, s, context), s'.t.running);
    } else {
      ResumeIsFree(l, s, s'.resume);
    }
  }

  lemma InPlace(l: Layout, s: System, context: Word)
    requires Inv(l, s) && ContextPlaced(l, s.t, context)
    ensures Shape(l, s) && FrameAddress(context)
  {
  }

  lemma SavingKeepsSlots(l: Layout, s: System, context: Word)
    requires Shape(l, s) && FrameAddress(context)
    ensures WithContextKept(l, s, context).t.slots == s.t.slots
  {
  }

  lemma ResumeIsFree(l: Layout, s: System, r: Resume)
    requires Inv(l, s)
    ensures Inv(l, s.(resume := r))
  {
    hide SlotsOk, PagesDisjoint, PoolAbove, LayoutOk, DirectoryOk;
  }

  lemma ChosenKeepsInv(l: Layout, s: System, i: nat)
    requires Inv(l, s) && (i == 0 || InUse(s.t, i))
    requires FrameKept(s, 0) && forall j :: InUse(s.t, j) && s.t.slots[j].user ==> FrameKept(s, j)
    ensures Inv(l, Chosen(l, s, i))
  {
    var s' := Chosen(l, s, i);
    hide KernelStackTop, FrameAt;
    StateChanged(l, s, s', i, Running);
    ChosenFrames(l, s, s');
  }

  lemma ChosenFrames(l: Layout, s1: System, s': System)
    requires Inv(l, s1) && TableOk(s'.t) && s'.saved == s1.saved && |s'.t.slots| == |s1.t.slots| && s'.t.mem == s1.t.mem
    requires forall j :: 0 <= j < |s1.t.slots| ==> s'.t.slots[j] == s1.t.slots[j].(state := s'.t.slots[j].state)
    requires forall j :: InUse(s'.t, j) <==> InUse(s1.t, j)
    requires FrameKept(s1, 0) && forall i :: InUse(s1.t, i) && s1.t.slots[i].user ==> FrameKept(s1, i)
    ensures FramesOk(s')
  {
    forall i | InUse(s'.t, i) && s'.t.slots[i].user ensures FrameKept(s', i) {
      assert InUse(s1.t, i) && FrameKept(s1, i);
    }
  }

  // ------------------------------------------------- exit and execution

  lemma TerminateKeepsInv(l: Layout, s: System)
    requires Inv(l, s)
    ensures Inv(l, Effect(l, s, Terminate))
  {
    if s.t.running != 0 {
      assert InUse(s.t, s.t.running);
      var s' := Effect(l, s, Terminate);
      StateChanged(l, s, s', s.t.running, Zombie);
      forall i | InUse(s'.t, i) && s'.t.slots[i].user && i != s'.t.running ensures FrameKept(s', i) {
        assert InUse(s.t, i) && FrameKept(s, i);
      }
    }
  }

  lemma ExecuteKeepsInv(l: Layout, s: System, mem: seq<Word>)
    requires Inv(l, s) && Undisturbed(l, s.t, mem)
    ensures Inv(l, Effect(l, s, Execute(mem)))
  {
    var s' := Effect(l, s, Execute(mem));
    SlotsIgnoreMemory(l, s, s');
    if s.t.running != 0 {
      BootContextWords(l);
      assert FrameKept(s, 0);
    }
    forall i | InUse(s'.t, i) && s'.t.slots[i].user && i != s'.t.running ensures FrameKept(s', i) {
      assert InUse(s.t, i) && FrameKept(s, i);
    }
    hide FrameAt, WithFrame, MapsOk;
    MapsKept(l, s, s');
  }
}
