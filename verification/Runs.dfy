/**
 Runs of the kernel: creations, exits, dispatches and arbitrary execution in
 between, as steps of a system whose state joins the allocator, physical
 memory, the process table and the scheduler.
 */
module Runs {
  import opened Options
  import opened Machine
  import opened Memory
  import opened Pmm
  import opened Paging
  import opened Process
  import opened Scheduler

  // -------------------------------------------------------------- layout

  function Pd(l: Layout): nat {
    l.pageDirectory / 0x1000
  }

  function Tb(l: Layout): nat {
    l.identityTables / 0x1000
  }

  /** Pages the kernel image reaches into. */
  function KernelPages(l: Layout): nat {
    (l.kernelEnd + 4095) / 4096
  }

  /** The window slots that user mappings replace: those of the user code and user stack addresses. */
  const CODE_SLOT: nat := 0x400
  const STACK_SLOT: nat := 0x7ff

  /** First word of the bootstrap process's saved context. */
  function BootWord(l: Layout): nat {
    BootstrapContext(l) / 4
  }

  /** Two word ranges do not meet. */
  predicate Apart(a: int, n: int, b: int, m: int) {
    a + n <= b || b + m <= a
  }

  /**
   The linker places page_directory, identity_tables and bootstrap_stack apart
   inside the image, which starts at 1 MiB and ends below 4 MiB.
   */
  ghost predicate LayoutOk(l: Layout) {
    && l.kernelEnd <= 0x40_0000 && 0x10_0000 <= l.bootstrapStack
    && Aligned(l.pageDirectory) && Aligned(l.identityTables) && TablesPlaced(Pd(l), Tb(l))
    && 1 <= Pd(l) < KernelPages(l) && 1 <= Tb(l) && Tb(l) + 4 <= KernelPages(l)
    && l.bootstrapStack % 16 == 0 && l.bootstrapStack + 4096 <= l.kernelEnd
    && Apart(BootWord(l), FRAME_WORDS, 1024 * Pd(l), 1024) && Apart(BootWord(l), FRAME_WORDS, 1024 * Tb(l), 4096)
  }

  // -------------------------------------------------------------- states

  /**
   The table with what the rest of the machine and the history contribute:
   the loaded directory, what the last dispatch resumed, the context last
   saved for each slot, creations so far, and the newest user process's pages
   and pid.
   */
  datatype System = System(
    t: Table, cr3: Word, resume: Resume, saved: seq<seq<Word>>, kernels: nat, users: nat,
    latestCode: nat, latestStack: nat, latestUser: Word)

  datatype Event =
    | CreateKernel(entry: Word, argument: Word)
    | CreateUser(image: Option<seq<Byte>>)
    | Terminate
    | Dispatch(context: Word)
    | Execute(mem: seq<Word>)

  ghost predicate SamePage(m: seq<Word>, m': seq<Word>, page: nat)
    requires |m| == |m'| == MEM_WORDS
  {
    page < MAX_FRAMES && forall k :: 0 <= k < 1024 ==> Entry(m', page, k) == Entry(m, page, k)
  }

  ghost predicate SameFrameAt(m: seq<Word>, m': seq<Word>, context: Word)
    requires |m| == |m'| == MEM_WORDS
  {
    FrameAddress(context) ==> FrameAt(m', context) == FrameAt(m, context)
  }

  /** Running code leaves page tables and the saved contexts of the others alone. */
  ghost predicate Undisturbed(l: Layout, t: Table, m': seq<Word>)
    requires TableOk(t)
  {
    && |m'| == MEM_WORDS
    && SamePage(t.mem, m', Pd(l)) && (forall k :: Tb(l) <= k < Tb(l) + 4 ==> SamePage(t.mem, m', k))
    && SameFrameAt(t.mem, m', BootstrapContext(l))
    && forall i :: 1 <= i < |t.slots| && t.slots[i].state != Unused ==>
         SamePage(t.mem, m', t.slots[i].directory / 0x1000)
         && (i != t.running ==> SameFrameAt(t.mem, m', t.slots[i].context))
  }

  /**
   Where the interrupt stub can have put the context it hands over: from ring 3
   right under tss.esp0; from ring 0 on the running stack, clear of every
   context saved for another slot.
   */
  ghost predicate ContextPlaced(l: Layout, t: Table, context: Word)
    requires TableOk(t)
  {
    var s := t.slots[t.running];
    && FrameAddress(context)
    && if s.user && s.state == Running then context == Wrap32(t.esp0 - 60)
       else
         && Apart(context, 60, BootstrapContext(l), 60)
         && forall i :: 1 <= i < |t.slots| && i != t.running && t.slots[i].state != Unused ==>
              Apart(context, 60, t.slots[i].context, 60)
  }

  ghost predicate Shape(l: Layout, s: System) {
    TableOk(s.t) && LayoutOk(l) && |s.saved| == |s.t.slots|
  }

  /** What an event does when every pointer the kernel follows leads to its page. */
  ghost function Effect(l: Layout, s: System, e: Event): System
    requires Shape(l, s)
  {
    match e
    case CreateKernel(entry, argument) =>
      var (t, pid) := Created(l, s.t, entry, argument);
      if pid == None then s.(t := t)
      else
        var i := FirstReusable(s.t.slots, 1).value;
        s.(t := t, saved := s.saved[i := KernelFrame(l, t.slots[i].stackBase)], kernels := s.kernels + 1)
    case CreateUser(image) =>
      var (t, pid) := CreatedUser(l, s.t, image);
      if pid == None then s.(t := t)
      else
        var i := FirstReusable(s.t.slots, 1).value;
        s.(t := t, saved := s.saved[i := UserFrame()], users := s.users + 1,
           latestCode := t.slots[i].codeBase / 0x1000, latestStack := t.slots[i].userStackBase / 0x1000,
           latestUser := s.t.nextPid)
    case Terminate => s.(t := Terminated(s.t))
    case Dispatch(context) =>
      if !FrameAddress(context) then s
      else
        var (t, r) := Scheduled(l, s.t, context);
        s.(t := t, resume := r, cr3 := if r.directory != 0 then r.directory else s.cr3,
           saved := if Switches(s.t) then s.saved[s.t.running := FrameAt(s.t.mem, context)] else s.saved)
    case Execute(mem) => s.(t := s.t.(mem := mem))
  }

  // ------------------------------------------- where kernel pointers lead

  /** The page that window slot p shows: p, but for the two slots the newest user process has. */
  function WindowPage(s: System, p: nat): nat {
    if s.users > 0 && p == CODE_SLOT then s.latestCode
    else if s.users > 0 && p == STACK_SLOT then s.latestStack
    else p
  }

  predicate InWindow(s: System, p: nat) {
    p < 4096 && WindowPage(s, p) == p
  }

  /** Stack and directory of every slot in use are where the kernel's pointers lead. */
  ghost predicate ReachOk(s: System) {
    forall i :: InUse(s.t, i) ==>
      InWindow(s, s.t.slots[i].stackBase / 0x1000) && InWindow(s, s.t.slots[i].directory / 0x1000)
  }

  /**
   No access of the creation faults or goes astray, and none to a stack or
   directory will after it.  Other creations are outside the model: the kernel
   halts on a page fault, or has overwritten another page.
   */
  ghost predicate Sound(l: Layout, s: System, e: Event)
    requires Shape(l, s) && (e.CreateKernel? || e.CreateUser?)
  {
    && ReachOk(Effect(l, s, e))
    && if e.CreateKernel? then CreateServed(l, s.t, s.cr3, e.entry) else CreateUserServed(l, s.t, s.cr3, e.image)
  }

  /** The interrupted context was pushed through the loaded directory to pages it shows. */
  ghost predicate ContextReached(s: System, context: Word) {
    FrameAddress(context) && InWindow(s, FirstPage(context)) && InWindow(s, LastPage(context))
  }

  /** Only the code of a process that has not exited creates processes. */
  ghost predicate Enabled(l: Layout, s: System, e: Event)
    requires Shape(l, s)
  {
    match e
    case CreateKernel(_, _) => s.t.slots[s.t.running].state == Running && Sound(l, s, e)
    case CreateUser(_) => s.t.slots[s.t.running].state == Running && Sound(l, s, e)
    case Terminate => true
    case Dispatch(context) => ContextPlaced(l, s.t, context) && ContextReached(s, context)
    case Execute(mem) => Undisturbed(l, s.t, mem)
  }

  /** One event; an event that is not enabled does nothing. */
  ghost function Step(l: Layout, s: System, e: Event): System
    requires Shape(l, s)
  {
    if Enabled(l, s, e) then Effect(l, s, e) else s
  }

  // ----------------------------------------------------------- invariants

  /** Pages that belong to a slot. */
  ghost function PagesOf(s: Slot): set<nat> {
    if s.user then {s.stackBase / 0x1000, s.directory / 0x1000, s.codeBase / 0x1000, s.userStackBase / 0x1000}
    else {s.stackBase / 0x1000, s.directory / 0x1000}
  }

  /** The slot's pages are page aligned and pairwise distinct, its context at the top of its stack. */
  ghost predicate WellFormed(s: Slot) {
    && Aligned(s.stackBase) && Aligned(s.directory) && s.stackBase != s.directory
    && s.context == TopFrame(s.stackBase)
    && (s.user ==>
          && Aligned(s.codeBase) && Aligned(s.userStackBase)
          && s.codeBase != s.userStackBase && s.codeBase != s.stackBase && s.codeBase != s.directory
          && s.userStackBase != s.stackBase && s.userStackBase != s.directory)
  }

  /** Pages taken from the allocator and outside the kernel image. */
  ghost predicate Taken(l: Layout, a: Pool, pages: set<nat>) {
    forall p :: p in pages ==> KernelPages(l) <= p < MAX_PAGES && p !in a.free
  }

  ghost predicate PoolAbove(l: Layout, a: Pool) {
    forall p :: p in a.free ==> KernelPages(l) <= p < MAX_PAGES
  }

  ghost predicate InUse(t: Table, i: int) {
    1 <= i < |t.slots| && t.slots[i].state != Unused
  }

  ghost predicate SlotsOk(l: Layout, t: Table)
    requires TableOk(t)
  {
    && t.slots[0] == BootstrapSlot(l)
    && (forall i :: 1 <= i < |t.slots| ==> !t.slots[i].bootstrap)
    && (forall i :: InUse(t, i) ==> WellFormed(t.slots[i]) && Taken(l, t.pool, PagesOf(t.slots[i])))
  }

  ghost predicate PagesDisjoint(t: Table) {
    forall i, j :: InUse(t, i) && InUse(t, j) && i != j ==> PagesOf(t.slots[i]) !! PagesOf(t.slots[j])
  }

  /** Pids count creations, never repeat, and cannot wrap: every creation keeps two pages for good. */
  ghost predicate PidsOk(s: System) {
    && s.t.nextPid == 1 + s.kernels + s.users
    && 2 * s.kernels + 4 * s.users + |s.t.pool.free| <= MAX_PAGES
    && (forall i :: InUse(s.t, i) ==> 1 <= s.t.slots[i].pid < s.t.nextPid)
    && (forall i, j :: InUse(s.t, i) && InUse(s.t, j) && i != j ==> s.t.slots[i].pid != s.t.slots[j].pid)
  }

  ghost predicate RunningOk(l: Layout, s: System)
    requires TableOk(s.t)
  {
    var r := s.t.slots[s.t.running];
    && (r.state == Running || r.state == Zombie)
    && s.t.esp0 == KernelStackTop(l, r)
    && s.cr3 == r.directory
  }

  /** Slot i's saved context is the one last saved for it. */
  ghost predicate FrameKept(s: System, i: nat)
    requires TableOk(s.t) && |s.saved| == |s.t.slots| && i < |s.t.slots|
  {
    FrameAddress(s.t.slots[i].context) && FrameAt(s.t.mem, s.t.slots[i].context) == s.saved[i]
  }

  ghost predicate FramesOk(s: System)
    requires TableOk(s.t) && |s.saved| == |s.t.slots|
  {
    && (s.t.running != 0 ==> FrameKept(s, 0))
    && forall i :: InUse(s.t, i) && s.t.slots[i].user && i != s.t.running ==> FrameKept(s, i)
  }

  /** What init_paging, create_page_directory and the user mappings leave in directory slot i. */
  function SlotWord(l: Layout, dir: nat, user: bool, i: nat): Word
    requires Tb(l) + 4 <= MAX_FRAMES && dir < MAX_FRAMES
  {
    if i < 4 then MakeEntry(Tb(l) + i, user && i == 1) else if i == 1023 then MakeEntry(dir, false) else 0
  }

  /** All directories share the four window tables; a user process's has the user bit on the second. */
  ghost predicate DirectoryOk(l: Layout, m: seq<Word>, directory: Word, user: bool)
    requires |m| == MEM_WORDS && Tb(l) + 4 <= MAX_FRAMES
  {
    forall i :: 0 <= i < 1024 ==> Entry(m, directory / 0x1000, i) == SlotWord(l, directory / 0x1000, user, i)
  }

  /** Window slot p, counted through the four tables. */
  function WindowEntry(l: Layout, m: seq<Word>, p: nat): Word
    requires |m| == MEM_WORDS && Tb(l) + 4 <= MAX_FRAMES && p < 4096
  {
    Entry(m, Tb(l) + p / 1024, p % 1024)
  }

  predicate Redirected(s: System, p: nat) {
    s.users > 0 && (p == CODE_SLOT || p == STACK_SLOT)
  }

  ghost predicate WindowOk(l: Layout, s: System)
    requires TableOk(s.t) && LayoutOk(l)
  {
    && s.latestCode < MAX_FRAMES && s.latestStack < MAX_FRAMES
    && forall p :: 0 <= p < 4096 ==> WindowEntry(l, s.t.mem, p) == MakeEntry(WindowPage(s, p), Redirected(s, p))
  }

  ghost predicate MapsOk(l: Layout, s: System)
    requires TableOk(s.t) && LayoutOk(l)
  {
    && WindowOk(l, s)
    && DirectoryOk(l, s.t.mem, l.pageDirectory, false)
    && (forall i :: InUse(s.t, i) ==> DirectoryOk(l, s.t.mem, s.t.slots[i].directory, s.t.slots[i].user))
  }

  /** A user process has the newest code page exactly when it has the newest user pid. */
  ghost predicate LatestOk(s: System) {
    && s.latestUser < s.t.nextPid
    && (s.users > 0 ==> s.latestCode !in s.t.pool.free)
    && forall i :: InUse(s.t, i) && s.t.slots[i].user ==>
         s.users > 0 && (s.t.slots[i].pid == s.latestUser <==> s.t.slots[i].codeBase / 0x1000 == s.latestCode)
  }

  ghost predicate Inv(l: Layout, s: System) {
    && Shape(l, s) && PoolAbove(l, s.t.pool) && SlotsOk(l, s.t) && PagesDisjoint(s.t) && PidsOk(s)
    && RunningOk(l, s) && FramesOk(s) && MapsOk(l, s) && ReachOk(s) && LatestOk(s)
  }
}
