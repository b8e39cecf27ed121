/**
 What the processor does when a new process is first resumed: the registers the
 interrupt return loads from the context that creation wrote.
 */
module FirstRun {
  import opened Options
  import opened Machine
  import opened Memory
  import opened Pmm
  import opened Paging
  import opened Process
  import opened Runs
  import opened Creation
  import opened Pointers
  import opened KernelTheorems
  import opened Protection

  /** The registers an interrupt return loads; for ring 0 it keeps ss. */
  datatype Cpu = Cpu(eip: Word, cs: Word, eflags: Word, esp: Word, ss: Option<Word>)

  /** Word j of the context at that address. */
  function ContextWord(m: seq<Word>, context: Word, j: nat): Word
    requires |m| == MEM_WORDS && FrameAddress(context) && j < FRAME_WORDS
  {
    m[context / 4 + j]
  }

  /**
   The end of the common interrupt stub.  To ring 3 all five words of the
   interrupt frame are popped.  To ring 0 the saved esp, word 3, points at the
   vector; three words are put eight bytes above it and popped from there.
   */
  function Resumed(m: seq<Word>, context: Word): Cpu
    requires |m| == MEM_WORDS && FrameAddress(context)
  {
    var eip, cs, eflags := ContextWord(m, context, 10), ContextWord(m, context, 11), ContextWord(m, context, 12);
    if cs % 4 != 0 then Cpu(eip, cs, eflags, ContextWord(m, context, 13), Some(ContextWord(m, context, 14)))
    else Cpu(eip, cs, eflags, Wrap32(ContextWord(m, context, 3) + 8 + 12), None)
  }

  /** The access bytes of the global descriptor table. */
  const GDT_ACCESS: seq<Byte> := [0x00, 0x9a, 0x92, 0xfa, 0xf2, 0x89]

  /** The selector names a present descriptor of the table, of its own privilege, for code or for data. */
  predicate Selects(selector: Word, privilege: nat, code: bool) {
    && selector % 4 == privilege && selector / 4 % 2 == 0 && selector / 8 < |GDT_ACCESS|
    && var access := GDT_ACCESS[selector / 8];
       access / 0x80 == 1 && access / 0x20 % 4 == privilege && access / 0x10 % 2 == 1 && (access / 8 % 2 == 1 <==> code)
  }

  /** Bit 9, the interrupt flag, is set and the I/O privilege level is 0. */
  predicate Interruptible(eflags: Word) {
    eflags / 0x200 % 2 == 1 && eflags / 0x1000 % 4 == 0
  }

  lemma FrameWord(m: seq<Word>, context: Word, j: nat)
    requires |m| == MEM_WORDS && FrameAddress(context) && j < FRAME_WORDS
    ensures ContextWord(m, context, j) == FrameAt(m, context)[j]
  {
  }

  /** The words of a context, with their meaning for the interrupt return. */
  lemma ResumedFrom(m: seq<Word>, context: Word, eip: Word, cs: Word, esp: Word, userEsp: Word, userSs: Word)
    requires |m| == MEM_WORDS && FrameAddress(context)
    requires FrameAt(m, context) == InitialFrame(eip, cs, esp, userEsp, userSs)
    ensures Resumed(m, context)
            == if cs % 4 != 0 then Cpu(eip, cs, 0x202, userEsp, Some(userSs))
               else Cpu(eip, cs, 0x202, Wrap32(esp + 20), None)
    ensures forall j :: 0 <= j < 10 && j != 3 ==> ContextWord(m, context, j) == 0
    ensures ContextWord(m, context, 3) == esp
  {
    forall j | 0 <= j < FRAME_WORDS
      ensures ContextWord(m, context, j) == InitialFrame(eip, cs, esp, userEsp, userSs)[j]
    {
      FrameWord(m, context, j);
    }
    hide FrameAt, ContextWord, Wrap32;
  }

  /**
   Resuming slot n in memory m enters ring 3 with interrupts on and the general
   registers zero, at an address that leads to its code page and holds first,
   with the stack pointer on its user stack page.
   */
  ghost predicate EntersRingThree(m: seq<Word>, n: Slot, first: Byte) {
    && |m| == MEM_WORDS && n.directory / 0x1000 < MAX_FRAMES && FrameAddress(n.context)
    && n.context == n.stackBase + 4096 - 4 * FRAME_WORDS
    && var dir, cpu := n.directory / 0x1000, Resumed(m, n.context);
       && Selects(cpu.cs, 3, true) && cpu.ss.Some? && Selects(cpu.ss.value, 3, false) && Interruptible(cpu.eflags)
       && Translate(m, dir, cpu.eip) == To(n.codeBase / 0x1000, true) && UserLoad(m, dir, cpu.eip) == Some(first)
       && 0x7f_f000 < cpu.esp < 0x80_0000 && cpu.esp % 16 == 0
       && Translate(m, dir, cpu.esp) == To(n.userStackBase / 0x1000, true)
       && forall j :: 0 <= j < 10 ==> ContextWord(m, n.context, j) == 0
  }

  /** A new user process enters ring 3 at the first byte of its image, on pages of its own. */
  lemma UserStartsInRingThree(l: Layout, s: System, image: Option<seq<Byte>>)
    requires Inv(l, s) && Enabled(l, s, CreateUser(image)) && CreatedUser(l, s.t, image).1.Some?
    ensures FirstReusable(s.t.slots, 1).Some? && image.Some? && |image.value| > 0
    ensures var s', i := Step(l, s, CreateUser(image)), FirstReusable(s.t.slots, 1).value;
            i < |s'.t.slots| && EntersRingThree(s'.t.mem, s'.t.slots[i], image.value[0])
  {
    hide Inv, Enabled, Step, Translate, CreatedUser, LayoutOk, FirstReusable, UserLoad, FrameAt, EntersRingThree;
    hide UserFrame, UserReaches, Entry, ByteOf, Effect;
    Basics(l, s);
    CreatedUserNeeds(l, s.t, image);
    UserContextWritten(l, s, image);
    NewUserPages(l, s, image);
    FirstByteSeen(l, s, image);
    var s', i := Step(l, s, CreateUser(image)), FirstReusable(s.t.slots, 1).value;
    EntersFrom(s'.t.mem, s'.t.slots[i], image.value[0]);
  }

  lemma FirstByteSeen(l: Layout, s: System, image: Option<seq<Byte>>)
    requires Inv(l, s) && Enabled(l, s, CreateUser(image)) && CreatedUser(l, s.t, image).1.Some?
    ensures FirstReusable(s.t.slots, 1).Some? && image.Some? && |image.value| > 0
    ensures var s', i := Step(l, s, CreateUser(image)), FirstReusable(s.t.slots, 1).value;
            && i < |s'.t.slots| && |s'.t.mem| == MEM_WORDS && s'.t.slots[i].directory / 0x1000 < MAX_FRAMES
            && UserLoad(s'.t.mem, s'.t.slots[i].directory / 0x1000, USER_CODE_ADDRESS) == Some(image.value[0])
  {
    hide Inv, Enabled, Step, CreatedUser, LayoutOk, FirstReusable, UserLoad, Entry, ByteOf;
    Basics(l, s);
    CreatedUserNeeds(l, s.t, image);
    ImageAtUserAddress(l, s, image, 0);
  }

  lemma EntersFrom(m: seq<Word>, n: Slot, first: Byte)
    requires |m| == MEM_WORDS && n.directory / 0x1000 < MAX_FRAMES && FrameAddress(n.context)
    requires FrameAt(m, n.context) == UserFrame() && n.context == n.stackBase + 4036
    requires UserLoad(m, n.directory / 0x1000, USER_CODE_ADDRESS) == Some(first)
    requires Translate(m, n.directory / 0x1000, USER_CODE_ADDRESS) == To(n.codeBase / 0x1000, true)
    requires Translate(m, n.directory / 0x1000, USER_STACK_TOP - 4096) == To(n.userStackBase / 0x1000, true)
    ensures EntersRingThree(m, n, first)
  {
    hide Translate, UserLoad, FrameAt, Resumed, ContextWord;
    ResumedFrom(m, n.context, USER_CODE_ADDRESS, 0x1b, 0, USER_STACK_TOP - 16, 0x23);
    StackOffset(m, n.directory / 0x1000);
  }

  /** Step and effect of an enabled creation, with the new slot's context at the top of its stack. */
  lemma NewUserPages(l: Layout, s: System, image: Option<seq<Byte>>)
    requires Inv(l, s) && Enabled(l, s, CreateUser(image)) && CreatedUser(l, s.t, image).1.Some?
    ensures FirstReusable(s.t.slots, 1).Some?
    ensures var s', i := Step(l, s, CreateUser(image)), FirstReusable(s.t.slots, 1).value;
            && s'.t == CreatedUser(l, s.t, image).0 && i < |s'.t.slots| && |s'.t.mem| == MEM_WORDS
            && var n := s'.t.slots[i];
               && n.context == n.stackBase + 4036 && n.directory / 0x1000 < MAX_FRAMES
               && Translate(s'.t.mem, n.directory / 0x1000, USER_CODE_ADDRESS) == To(n.codeBase / 0x1000, true)
               && Translate(s'.t.mem, n.directory / 0x1000, USER_STACK_TOP - 4096) == To(n.userStackBase / 0x1000, true)
  {
    var i := NewUserSlot(l, s, image);
    StepKeepsInv(l, s, CreateUser(image));
    var s' := Step(l, s, CreateUser(image));
    hide Inv, Enabled, Step, Translate, CreatedUser, LayoutOk, FirstReusable, DirectoryOk, TopFrame, Effect;
    Basics(l, s');
    UserAddressesShowNewest(l, s', i);
    PointerIndex(s'.t.slots[i].stackBase);
    TopFrameWords(s'.t.slots[i].stackBase / 0x1000);
  }

  lemma NewUserSlot(l: Layout, s: System, image: Option<seq<Byte>>) returns (i: nat)
    requires Inv(l, s) && Enabled(l, s, CreateUser(image)) && CreatedUser(l, s.t, image).1.Some?
    ensures FirstReusable(s.t.slots, 1) == Some(i)
    ensures var s' := Step(l, s, CreateUser(image));
            && s'.t == CreatedUser(l, s.t, image).0 && InUse(s'.t, i) && s'.t.slots[i].user
            && var n := s'.t.slots[i];
               && Aligned(n.stackBase) && n.context == TopFrame(n.stackBase)
               && s'.latestCode == n.codeBase / 0x1000 && s'.latestStack == n.userStackBase / 0x1000
  {
    Basics(l, s);
    UserCreationSound(l, s, image);
    i := FirstReusable(s.t.slots, 1).value;
    hide Inv, Enabled, Lowest, CreatedUser, UserPagesFit, Sound, LayoutOk, FirstReusable, DirectoryOk, TopFrame;
  }

  lemma UserContextWritten(l: Layout, s: System, image: Option<seq<Byte>>)
    requires Inv(l, s) && CreatedUser(l, s.t, image).1.Some?
    ensures FirstReusable(s.t.slots, 1).Some?
    ensures var t', i := CreatedUser(l, s.t, image).0, FirstReusable(s.t.slots, 1).value;
            && i < |t'.slots| && |t'.mem| == MEM_WORDS && FrameAddress(t'.slots[i].context)
            && FrameAt(t'.mem, t'.slots[i].context) == UserFrame()
  {
    Basics(l, s);
    CreatedUserAdmits(l, s.t, image);
    hide Inv, CreatedUser, Elsewhere, DirectoryOk, InnerKept, WellFormed, PagesOf, FirstReusable, UserFrame;
  }

  /** The initial user stack pointer is on the page of the stack address. */
  lemma StackOffset(m: seq<Word>, dir: nat)
    requires |m| == MEM_WORDS && dir < MAX_FRAMES
    ensures Translate(m, dir, USER_STACK_TOP - 16) == Translate(m, dir, USER_STACK_TOP - 4096)
  {
  }

  /**
   Resuming slot n in memory m enters ring 0 with interrupts on at the kernel's
   bootstrap routine, with the empty stack of the slot's stack page; the three
   words that the interrupt return writes lie inside that page.
   */
  ghost predicate EntersBootstrap(l: Layout, m: seq<Word>, n: Slot) {
    && |m| == MEM_WORDS && FrameAddress(n.context) && n.context == n.stackBase + 4096 - 4 * FRAME_WORDS
    && var cpu, scratch := Resumed(m, n.context), ContextWord(m, n.context, 3) + 8;
       && Selects(cpu.cs, 0, true) && cpu.ss == None && Interruptible(cpu.eflags)
       && cpu.eip == l.bootstrapEntry && cpu.esp == Wrap32(n.stackBase + 4096)
       && n.stackBase <= scratch && scratch + 12 <= n.stackBase + 4096
       && forall j :: 0 <= j < 10 && j != 3 ==> ContextWord(m, n.context, j) == 0
  }

  /** A new kernel thread enters the bootstrap routine, which finds its entry and argument in the slot. */
  lemma KernelThreadStarts(l: Layout, s: System, entry: Word, argument: Word)
    requires Inv(l, s) && Enabled(l, s, CreateKernel(entry, argument)) && Created(l, s.t, entry, argument).1.Some?
    ensures FirstReusable(s.t.slots, 1).Some?
    ensures var s', i := Step(l, s, CreateKernel(entry, argument)), FirstReusable(s.t.slots, 1).value;
            && i < |s'.t.slots| && EntersBootstrap(l, s'.t.mem, s'.t.slots[i])
            && s'.t.slots[i].entry == entry && s'.t.slots[i].argument == argument && !s'.t.slots[i].bootstrap
  {
    hide Inv, Enabled, Created, LayoutOk, FirstReusable, FrameAt, EntersBootstrap, KernelFrame, Effect, TopFrame;
    Basics(l, s);
    KernelContextWritten(l, s, entry, argument);
    KernelSlotContext(l, s, entry, argument);
    var s', i := Step(l, s, CreateKernel(entry, argument)), FirstReusable(s.t.slots, 1).value;
    BootstrapFrom(l, s'.t.mem, s'.t.slots[i]);
  }

  lemma BootstrapFrom(l: Layout, m: seq<Word>, n: Slot)
    requires |m| == MEM_WORDS && FrameAddress(n.context) && FrameAt(m, n.context) == KernelFrame(l, n.stackBase)
    requires n.context == n.stackBase + 4036
    ensures EntersBootstrap(l, m, n)
  {
    hide FrameAt, Resumed, ContextWord;
    ResumedFrom(m, n.context, l.bootstrapEntry, 0x08, Wrap32(n.stackBase + 4096 - 20), StackTop(n.stackBase), 0x10);
    WrapSmall(n.stackBase + 4096 - 20);
  }

  lemma KernelSlotContext(l: Layout, s: System, entry: Word, argument: Word)
    requires Inv(l, s) && Enabled(l, s, CreateKernel(entry, argument)) && Created(l, s.t, entry, argument).1.Some?
    ensures FirstReusable(s.t.slots, 1).Some?
    ensures var s', i := Step(l, s, CreateKernel(entry, argument)), FirstReusable(s.t.slots, 1).value;
            && s'.t == Created(l, s.t, entry, argument).0
            && i < |s'.t.slots| && s'.t.slots[i].context == s'.t.slots[i].stackBase + 4036
  {
    hide Inv, Created, LayoutOk, FirstReusable, Sound, InWindow, Lowest, DirectoryOk, TopFrame;
    Basics(l, s);
    KernelCreationSound(l, s, entry, argument);
    var pages := Lowest(s.t.pool.free, 2);
    SamePages(pages[0], pages[0], pages[0], pages[0]);
    TopFrameWords(pages[0]);
  }

  lemma KernelContextWritten(l: Layout, s: System, entry: Word, argument: Word)
    requires Inv(l, s) && Created(l, s.t, entry, argument).1.Some?
    ensures FirstReusable(s.t.slots, 1).Some?
    ensures var t', i := Created(l, s.t, entry, argument).0, FirstReusable(s.t.slots, 1).value;
            && i < |t'.slots| && |t'.mem| == MEM_WORDS && FrameAddress(t'.slots[i].context)
            && FrameAt(t'.mem, t'.slots[i].context) == KernelFrame(l, t'.slots[i].stackBase)
            && t'.slots[i].entry == entry && t'.slots[i].argument == argument && !t'.slots[i].bootstrap
  {
    Basics(l, s);
    CreatedAdmits(l, s.t, entry, argument);
    hide Inv, Elsewhere, DirectoryOk, InnerKept, WellFormed, PagesOf, FirstReusable, KernelFrame, FrameAt, WithFrame;
    hide NewDirectory, Allocated, SamePage;
  }
}
