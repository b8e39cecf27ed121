/**
 The process table: creation from allocator pages, exit, round robin and
 saved contexts.  Contexts are fifteen words inside physical memory, so saving
 one process can be checked not to disturb another.
 */
module Process {
  import opened Options
  import opened Machine
  import opened Memory
  import opened Pmm
  import opened Paging

  const FRAME_WORDS: nat := 15
  const USER_CODE_ADDRESS: Word := 0x40_0000
  const USER_STACK_TOP: Word := 0x80_0000

  datatype State = Unused | Ready | Running | Zombie

  datatype Slot = Slot(
    pid: Word, state: State, directory: Word, stackBase: Word, context: Word, entry: Word, argument: Word,
    bootstrap: bool, user: bool, codeBase: Word, userStackBase: Word)

  const EMPTY_SLOT := Slot(0, Unused, 0, 0, 0, 0, 0, false, false, 0, 0)

  /** Addresses of the kernel objects the table uses. */
  datatype Layout = Layout(
    pageDirectory: Word, identityTables: Word, bootstrapStack: Word, bootstrapEntry: Word, kernelEnd: Word)

  /** The whole mutable state process.c works on. */
  datatype Table = Table(pool: Pool, mem: seq<Word>, slots: seq<Slot>, nextPid: Word, running: nat, esp0: Word)

  ghost predicate TableOk(t: Table) {
    PoolOk(t.pool) && |t.mem| == MEM_WORDS && 1 <= |t.slots| < 0x8000_0000 && t.running < |t.slots|
  }

  // ------------------------------------------------------------ contexts

  /** A saved context: its fifteen words in the order of struct cpu_context. */
  function InitialFrame(eip: Word, cs: Word, esp: Word, userEsp: Word, userSs: Word): (ws: seq<Word>)
    ensures |ws| == FRAME_WORDS
  {
    [0, 0, 0, esp, 0, 0, 0, 0, 0, 0, eip, cs, 0x202, userEsp, userSs]
  }

  predicate FrameAddress(address: Word) {
    address % 4 == 0 && address / 4 + FRAME_WORDS <= MEM_WORDS
  }

  function FrameAt(m: seq<Word>, address: Word): (ws: seq<Word>)
    requires |m| == MEM_WORDS && FrameAddress(address)
    ensures |ws| == FRAME_WORDS
  {
    m[address / 4..address / 4 + FRAME_WORDS]
  }

  lemma SameWordsSameFrame(m: seq<Word>, m': seq<Word>, address: Word)
    requires |m| == |m'| == MEM_WORDS && FrameAddress(address)
    requires forall k :: address / 4 <= k < address / 4 + FRAME_WORDS ==> m'[k] == m[k]
    ensures FrameAt(m', address) == FrameAt(m, address)
  {
  }

  /** The frame at the top of a one-page stack. */
  function TopFrame(stackBase: Word): Word {
    Wrap32(stackBase as int + 4096 - 60)
  }

  function StackTop(stackBase: Word): Word {
    Wrap32(stackBase as int + 4096)
  }

  function BootstrapContext(l: Layout): Word {
    Wrap32(l.bootstrapStack as int + 4096 - 60)
  }

  function KernelStackTop(l: Layout, s: Slot): Word {
    StackTop(if s.bootstrap then l.bootstrapStack else s.stackBase)
  }

  /** The context process_create writes for a new kernel thread. */
  function KernelFrame(l: Layout, stack: Word): (ws: seq<Word>)
    ensures |ws| == FRAME_WORDS
  {
    InitialFrame(l.bootstrapEntry, 0x08, Wrap32(stack as int + 4096 - 20), StackTop(stack), 0x10)
  }

  /** The context process_create_user writes. */
  function UserFrame(): (ws: seq<Word>)
    ensures |ws| == FRAME_WORDS
  {
    InitialFrame(USER_CODE_ADDRESS, 0x1b, 0, USER_STACK_TOP - 16, 0x23)
  }

  lemma TopFrameWords(page: nat)
    requires page < MAX_FRAMES
    ensures var address := TopFrame(0x1000 * page);
            address == 0x1000 * page + 4036 && FrameAddress(address) && address / 4 == 1024 * page + 1009
  {
    WrapSmall(0x1000 * page + 4036);
    DivModUnique(0x1000 * page + 4036, 4, 1024 * page + 1009, 0);
  }

  // ------------------------------------------------------------- creation

  predicate Reusable(s: Slot) {
    s.state == Unused || s.state == Zombie
  }

  /** The first reusable slot at or after i. */
  function FirstReusable(slots: seq<Slot>, i: nat): (r: Option<nat>)
    requires i <= |slots|
    ensures r.Some? ==> i <= r.value < |slots| && Reusable(slots[r.value])
                        && forall j :: i <= j < r.value ==> !Reusable(slots[j])
    ensures r == None ==> forall j :: i <= j < |slots| ==> !Reusable(slots[j])
    decreases |slots| - i
  {
    if i == |slots| then None
    else if Reusable(slots[i]) then Some(i)
    else FirstReusable(slots, i + 1)
  }

  /** The table after process_create, and the pid it returns; None stands for -1. */
  ghost function Created(l: Layout, t: Table, entry: Word, argument: Word): (r: (Table, Option<Word>))
    requires TableOk(t) && l.pageDirectory / 0x1000 < MAX_FRAMES
  {
    var slot := FirstReusable(t.slots, 1);
    if entry == 0 || slot == None || |t.pool.free| < 2 then (t, None)
    else
      var (pool1, stack) := Allocated(t.pool);
      var (pool2, mem1, directory) := NewDirectory(pool1, t.mem, l.pageDirectory / 0x1000);
      var s := Slot(t.nextPid, Ready, directory, stack, TopFrame(stack), entry, argument, false, false, 0, 0);
      (t.(pool := pool2, mem := WithFrame(mem1, TopFrame(stack), KernelFrame(l, stack)),
          slots := t.slots[slot.value := s], nextPid := Wrap32(t.nextPid + 1)),
       Some(t.nextPid))
  }

  ghost function WithFrame(m: seq<Word>, address: Word, frame: seq<Word>): (r: seq<Word>)
    requires |m| == MEM_WORDS && |frame| == FRAME_WORDS
    ensures |r| == MEM_WORDS
  {
    if FrameAddress(address) then Splice(m, address / 4, frame) else m
  }

  /** Byte b of word k, which held w, once the image has been copied over its page. */
  function ImageByte(w: Word, image: seq<Byte>, k: nat, b: nat): Byte
    requires b < 4
  {
    if 4 * k + b < |image| then image[4 * k + b] else ByteOf(w, b)
  }

  function ImageWord(w: Word, image: seq<Byte>, k: nat): Word {
    LE32(ImageByte(w, image, k, 0), ImageByte(w, image, k, 1), ImageByte(w, image, k, 2), ImageByte(w, image, k, 3))
  }

  function LoadedPage(m: seq<Word>, page: nat, image: seq<Byte>): (ws: seq<Word>)
    requires |m| == MEM_WORDS && page < MAX_FRAMES
    ensures |ws| == 1024
    ensures forall k :: 0 <= k < 1024 ==> ws[k] == ImageWord(Entry(m, page, k), image, k)
  {
    seq<Word>(1024, k requires 0 <= k < 1024 => ImageWord(Entry(m, page, k), image, k))
  }

  /** The bytes a loaded page shows: the image, then what the page held before. */
  lemma LoadedBytes(w: Word, image: seq<Byte>, k: nat, b: nat)
    requires b < 4
    ensures ByteOf(ImageWord(w, image, k), b) == ImageByte(w, image, k, b)
  {
    var b0, b1 := ImageByte(w, image, k, 0), ImageByte(w, image, k, 1);
    var b2, b3 := ImageByte(w, image, k, 2), ImageByte(w, image, k, 3);
    DigitsOf(b0, b1, b2, b3);
  }

  function SetByte(w: Word, b: nat, value: Byte): Word
    requires b < 4
  {
    LE32(if b == 0 then value else ByteOf(w, 0), if b == 1 then value else ByteOf(w, 1),
         if b == 2 then value else ByteOf(w, 2), if b == 3 then value else ByteOf(w, 3))
  }

  lemma NothingLoaded(w: Word, image: seq<Byte>, k: nat)
    ensures ImageWord(w, image[..0], k) == w
  {
    WordFromBytes(w);
  }

  /** Storing image byte j brings word k from j bytes loaded to j + 1. */
  lemma OneMoreByte(w: Word, image: seq<Byte>, j: nat, k: nat)
    requires j < |image|
    ensures ImageWord(w, image[..j + 1], k)
            == if k == j / 4 then SetByte(ImageWord(w, image[..j], k), j % 4, image[j]) else ImageWord(w, image[..j], k)
  {
    forall b: nat | b < 4
      ensures ImageByte(w, image[..j + 1], k, b)
              == if 4 * k + b == j then image[j] else ImageByte(w, image[..j], k, b)
      ensures ByteOf(ImageWord(w, image[..j], k), b) == ImageByte(w, image[..j], k, b)
    {
      LoadedBytes(w, image[..j], k, b);
    }
  }

  /** r is m with the bytes of image stored from word base on. */
  ghost predicate Loaded(m: seq<Word>, r: seq<Word>, base: nat, image: seq<Byte>)
    requires |m| == |r| == MEM_WORDS && base + 1024 <= MEM_WORDS
  {
    && (forall k :: base <= k < base + 1024 ==> r[k] == ImageWord(m[k], image, k - base))
    && (forall k :: 0 <= k < MEM_WORDS && !(base <= k < base + 1024) ==> r[k] == m[k])
  }

  lemma ImageStep(m: seq<Word>, before: seq<Word>, after: seq<Word>, base: nat, image: seq<Byte>, j: nat)
    requires |m| == |before| == MEM_WORDS && base + 1024 <= MEM_WORDS && j < |image| <= 4096
    requires Loaded(m, before, base, image[..j])
    requires after == before[base + j / 4 := SetByte(before[base + j / 4], j % 4, image[j])]
    ensures Loaded(m, after, base, image[..j + 1])
  {
    hide SetByte, ImageWord;
    forall k | base <= k < base + 1024
      ensures after[k] == ImageWord(m[k], image[..j + 1], k - base)
    {
      OneMoreByte(m[k], image, j, k - base);
    }
  }

  lemma LoadedIsSplice(m: seq<Word>, r: seq<Word>, page: nat, image: seq<Byte>)
    requires |m| == |r| == MEM_WORDS && page < MAX_FRAMES && Loaded(m, r, 1024 * page, image)
    ensures r == Splice(m, 1024 * page, LoadedPage(m, page, image))
  {
    hide ImageWord;
    IsSplice(m, r, 1024 * page, LoadedPage(m, page, image));
  }

  /** The four pages of a user process in the order they are allocated. */
  datatype UserPages = UserPages(stack: Word, code: Word, userStack: Word, directory: Word)

  /** Allocator and memory once the pages are taken, the directory last. */
  ghost function UserPagesTaken(l: Layout, t: Table): (r: (Pool, seq<Word>, UserPages))
    requires TableOk(t) && l.pageDirectory / 0x1000 < MAX_FRAMES
    ensures PoolOk(r.0) && |r.1| == MEM_WORDS
    ensures Aligned(r.2.stack) && Aligned(r.2.code) && Aligned(r.2.userStack) && Aligned(r.2.directory)
  {
    var (pool1, stack) := Allocated(t.pool);
    var (pool2, code) := Allocated(pool1);
    var (pool3, userStack) := Allocated(pool2);
    var (pool4, mem, directory) := NewDirectory(pool3, t.mem, l.pageDirectory / 0x1000);
    (pool4, mem, UserPages(stack, code, userStack, directory))
  }

  /** Allocator and memory once the two user pages are mapped as well. */
  ghost function UserSpace(l: Layout, t: Table): (r: (Pool, seq<Word>, UserPages))
    requires TableOk(t) && l.pageDirectory / 0x1000 < MAX_FRAMES
    ensures PoolOk(r.0) && |r.1| == MEM_WORDS
  {
    var (pool4, mem1, p) := UserPagesTaken(l, t);
    var (pool5, mem2) := MapIn(pool4, mem1, p.directory / 0x1000, USER_CODE_ADDRESS, p.code, true);
    var (pool6, mem3) := MapIn(pool5, mem2, p.directory / 0x1000, USER_STACK_TOP - 4096, p.userStack, true);
    (pool6, mem3, p)
  }

  /** The table after process_create_user; image None stands for a null pointer. */
  ghost function CreatedUser(l: Layout, t: Table, image: Option<seq<Byte>>): (r: (Table, Option<Word>))
    requires TableOk(t) && l.pageDirectory / 0x1000 < MAX_FRAMES
  {
    var slot := FirstReusable(t.slots, 1);
    if image == None || |image.value| == 0 || |image.value| > 4096 || slot == None || |t.pool.free| < 4 then (t, None)
    else
      var (pool, mem, p) := UserSpace(l, t);
      var loaded := Splice(mem, 1024 * (p.code / 0x1000), LoadedPage(mem, p.code / 0x1000, image.value));
      var s := Slot(t.nextPid, Ready, p.directory, p.stack, TopFrame(p.stack), 0, 0, false, true, p.code, p.userStack);
      (t.(pool := pool, mem := WithFrame(loaded, TopFrame(p.stack), UserFrame()),
          slots := t.slots[slot.value := s], nextPid := Wrap32(t.nextPid + 1)),
       Some(t.nextPid))
  }

  // ------------------------------------------ pointers creation goes through

  /** Every pointer process_create follows leads to its page. */
  ghost predicate CreateServed(l: Layout, t: Table, cr3: Word, entry: Word)
    requires TableOk(t) && l.pageDirectory / 0x1000 < MAX_FRAMES
  {
    var (pool1, stack) := Allocated(t.pool);
    entry != 0 && FirstReusable(t.slots, 1).Some? ==>
      && DirectoryServed(pool1, t.mem, cr3, l.pageDirectory / 0x1000)
      && (pool1.free != {} ==> Ordinary(t.mem, cr3, stack / 0x1000))
  }

  /** The same for process_create_user, whose own mappings can redirect its later stores. */
  ghost predicate CreateUserServed(l: Layout, t: Table, cr3: Word, image: Option<seq<Byte>>)
    requires TableOk(t) && l.pageDirectory / 0x1000 < MAX_FRAMES
  {
    image.Some? && 0 < |image.value| <= 4096 && FirstReusable(t.slots, 1).Some? ==>
      && DirectoryServed(ThreeTaken(t.pool), t.mem, cr3, l.pageDirectory / 0x1000)
      && (|t.pool.free| >= 4 ==> MapsServed(l, t, cr3))
  }

  ghost function ThreeTaken(a: Pool): (r: Pool)
    requires PoolOk(a)
    ensures PoolOk(r)
  {
    Allocated(Allocated(Allocated(a).0).0).0
  }

  /** Both mappings, the image copy and the first frame, in the memories they find. */
  ghost predicate MapsServed(l: Layout, t: Table, cr3: Word)
    requires TableOk(t) && l.pageDirectory / 0x1000 < MAX_FRAMES
  {
    var (pool4, mem1, p) := UserPagesTaken(l, t);
    var d := p.directory / 0x1000;
    var (pool5, mem2) := MapIn(pool4, mem1, d, USER_CODE_ADDRESS, p.code, true);
    var (pool6, mem3) := MapIn(pool5, mem2, d, USER_STACK_TOP - 4096, p.userStack, true);
    && MapServed(pool4, mem1, cr3, d, DirIndex(USER_CODE_ADDRESS))
    && MapServed(pool5, mem2, cr3, d, DirIndex(USER_STACK_TOP - 4096))
    && Ordinary(mem1, cr3, p.code / 0x1000) && Ordinary(mem3, cr3, p.code / 0x1000)
    && Ordinary(mem3, cr3, p.stack / 0x1000)
  }

  // ------------------------------------------- pointers to saved contexts

  /** The pages of the first and the last word of a context. */
  function FirstPage(address: Word): nat {
    address / 0x1000
  }

  function LastPage(address: Word): nat {
    (address + 56) / 0x1000
  }

  ghost predicate FrameReached(m: seq<Word>, cr3: Word, address: Word)
    requires |m| == MEM_WORDS && FrameAddress(address)
  {
    FramePages(address);
    Reaches(m, cr3, FirstPage(address)) && Reaches(m, cr3, LastPage(address))
  }

  ghost predicate FrameServed(m: seq<Word>, cr3: Word, address: Word)
    requires |m| == MEM_WORDS && FrameAddress(address)
  {
    FramePages(address);
    Ordinary(m, cr3, FirstPage(address)) && Ordinary(m, cr3, LastPage(address))
  }

  lemma FramePages(address: Word)
    requires FrameAddress(address)
    ensures FirstPage(address) <= LastPage(address) < MAX_FRAMES
  {
  }

  lemma FramePage(address: Word, j: nat)
    requires FrameAddress(address) && j < FRAME_WORDS
    ensures var a := address + 4 * j;
            && a < 0x1_0000_0000 && a % 4 == 0 && a / 4 == address / 4 + j
            && (a / 0x1000 == FirstPage(address) || a / 0x1000 == LastPage(address))
            && (address / 4 + j) / 1024 == a / 0x1000
  {
    var a := address + 4 * j;
    DivModUnique(a, 4, address / 4 + j, 0);
    WordOfPage(a);
    DivModUnique(address / 4 + j, 1024, a / 0x1000, a % 0x1000 / 4);
    assert FirstPage(address) <= a / 0x1000 <= LastPage(address) <= FirstPage(address) + 1;
  }

  lemma FrameWordPage(address: Word, p: nat, i: nat)
    requires FrameAddress(address) && p < MAX_FRAMES && i < 1024
    ensures address / 4 <= 1024 * p + i < address / 4 + FRAME_WORDS ==>
              p == FirstPage(address) || p == LastPage(address)
  {
    if address / 4 <= 1024 * p + i < address / 4 + FRAME_WORDS {
      FramePage(address, 1024 * p + i - address / 4);
      DivModUnique(1024 * p + i, 1024, p, i);
    }
  }

  /** Stores to the words of a context leave it reached. */
  lemma FrameStill(m: seq<Word>, m': seq<Word>, cr3: Word, address: Word, j: nat)
    requires |m| == |m'| == MEM_WORDS && FrameAddress(address) && FrameServed(m, cr3, address) && j < FRAME_WORDS
    requires forall k :: 0 <= k < MEM_WORDS && !(address / 4 <= k < address / 4 + FRAME_WORDS) ==> m'[k] == m[k]
    ensures address + 4 * j < 0x1_0000_0000 && (address + 4 * j) % 4 == 0 && (address + 4 * j) / 4 == address / 4 + j
    ensures Reaches(m', cr3, (address + 4 * j) / 0x1000)
  {
    FramePage(address, j);
    FramePages(address);
    var x, y, page := FirstPage(address), LastPage(address), (address + 4 * j) / 0x1000;
    if cr3 != 0 {
      forall p, i | 0 <= p < MAX_FRAMES && 0 <= i < 1024 && p != x && p != y ensures Entry(m', p, i) == Entry(m, p, i) {
        FrameWordPage(address, p, i);
      }
      hide Present, Frame, UserBit, Entry, FirstPage, LastPage;
      var pde := Entry(m, cr3 / 0x1000, page / 1024);
      assert Entry(m', cr3 / 0x1000, page / 1024) == pde;
    }
  }

  /** The context at the top of an ordinary stack page. */
  lemma StackFrameServed(m: seq<Word>, cr3: Word, page: nat)
    requires |m| == MEM_WORDS && page < MAX_FRAMES && Ordinary(m, cr3, page)
    ensures FrameAddress(TopFrame(0x1000 * page)) && FrameServed(m, cr3, TopFrame(0x1000 * page))
  {
    TopFrameWords(page);
    DivModUnique(0x1000 * page + 4036, 0x1000, page, 4036);
    DivModUnique(0x1000 * page + 4092, 0x1000, page, 4092);
    hide Ordinary;
  }

  // ---------------------------------------------------- exit and dispatch

  /** process_terminate_current, and the state change of process_exit. */
  function Terminated(t: Table): Table
    requires t.running < |t.slots|
  {
    var s := t.slots[t.running];
    if s.bootstrap then t else t.(slots := t.slots[t.running := s.(state := Zombie)])
  }

  // ---------------------------------------------------------- start-up

  function EmptyFrame(): (ws: seq<Word>)
    ensures |ws| == FRAME_WORDS
  {
    [0, 0, 0, 0, 0, 0, 0, 0, 0, 0, 0, 0, 0, 0, 0]
  }

  function BootstrapSlot(l: Layout): Slot {
    Slot(0, Running, l.pageDirectory, 0, BootstrapContext(l), 0, 0, true, false, 0, 0)
  }

  function StartingSlots(l: Layout, n: nat): (slots: seq<Slot>)
    requires n >= 1
    ensures |slots| == n
  {
    seq(n, i requires 0 <= i < n => if i == 0 then BootstrapSlot(l) else EMPTY_SLOT)
  }

  /** The table after process_system_init. */
  ghost function SystemStarted(l: Layout, t: Table): Table
    requires TableOk(t)
  {
    Table(t.pool, WithFrame(t.mem, BootstrapContext(l), EmptyFrame()), StartingSlots(l, |t.slots|), t.nextPid, 0,
          KernelStackTop(l, BootstrapSlot(l)))
  }

  // ------------------------------------------------------- round robin

  predicate Runnable(s: Slot) {
    s.state == Ready || s.state == Running
  }

  function Runnables(slots: seq<Slot>): set<nat> {
    set i: nat | i < |slots| && Runnable(slots[i])
  }

  lemma OneMoreSlot(slots: seq<Slot>, i: nat)
    requires i < |slots|
    ensures |Runnables(slots[..i + 1])| == |Runnables(slots[..i])| + if Runnable(slots[i]) then 1 else 0
    ensures |Runnables(slots[..i])| <= i
  {
    var more, less := Runnables(slots[..i + 1]), Runnables(slots[..i]);
    assert more == less + if Runnable(slots[i]) then {i} else {};
    BoundedSetSize(less, i);
  }

  /** Slot reached from i after step round-robin steps. */
  function Around(n: nat, i: nat, step: nat): (k: nat)
    requires i < n && step <= n
    ensures k < n
  {
    if i + step < n then i + step else i + step - n
  }

  lemma AroundIsMod(n: nat, i: nat, step: nat)
    requires i < n && step <= n
    ensures Around(n, i, step) == (i + step) % n
  {
    if i + step < n {
      DivModUnique(i + step, n, 0, i + step);
    } else {
      DivModUnique(i + step, n, 1, i + step - n);
    }
  }

  /** The first step at or after step that reaches a runnable slot. */
  function FirstStep(slots: seq<Slot>, i: nat, step: nat): (r: Option<nat>)
    requires i < |slots| && 1 <= step <= |slots| + 1
    ensures r.Some? ==> step <= r.value <= |slots| && Runnable(slots[Around(|slots|, i, r.value)])
                        && forall k :: step <= k < r.value ==> !Runnable(slots[Around(|slots|, i, k)])
    ensures r == None ==> forall k :: step <= k <= |slots| ==> !Runnable(slots[Around(|slots|, i, k)])
    decreases |slots| + 1 - step
  {
    if step > |slots| then None
    else if Runnable(slots[Around(|slots|, i, step)]) then Some(step)
    else FirstStep(slots, i, step + 1)
  }

  /** The table after process_next_round_robin; running names the process returned. */
  function RoundRobin(l: Layout, t: Table): Table
    requires t.running < |t.slots|
  {
    var step := FirstStep(t.slots, t.running, 1);
    if step == None then t
    else
      var next := Around(|t.slots|, t.running, step.value);
      var s := t.slots[next].(state := Running);
      t.(slots := t.slots[next := s], running := next, esp0 := KernelStackTop(l, s))
  }

  /** The table after process_save_context. */
  ghost function ContextSaved(l: Layout, t: Table, context: Word): (r: Table)
    requires TableOk(t) && FrameAddress(context)
    ensures TableOk(r)
  {
    var s := t.slots[t.running];
    if s.bootstrap then
      t.(mem := WithFrame(t.mem, BootstrapContext(l), FrameAt(t.mem, context)),
         slots := t.slots[t.running := s.(context := BootstrapContext(l))])
    else if s.context == context then t
    else t.(mem := WithFrame(t.mem, s.context, FrameAt(t.mem, context)))
  }

  /** Every pointer process_save_context follows leads to its page. */
  ghost predicate SaveServed(l: Layout, t: Table, cr3: Word, context: Word)
    requires TableOk(t) && FrameAddress(context)
  {
    var s := t.slots[t.running];
    var own := if s.bootstrap then BootstrapContext(l) else s.context;
    FrameReached(t.mem, cr3, context) && FrameAddress(own) && FrameServed(t.mem, cr3, own)
  }

  // ----------------------------------------------------------- roll-back

  /** Freeing what a failed process_create took restores the allocator. */
  lemma CreateRollsBack(a: Pool)
    requires PoolOk(a) && |a.free| < 2
    ensures var (b, stack) := Allocated(a);
            b.free == {} && (if stack != 0 then Released(b, stack) else b) == a
  {
    FailureIsMonotone(a);
    ReleaseUndoesAllocate(a);
  }

  /** What process_create_user leaves of the allocator when it frees its pages, oldest first. */
  ghost function UserRolledBack(a: Pool): (r: (Pool, Pool))
    requires PoolOk(a)
  {
    var (a1, stack) := Allocated(a);
    var (a2, code) := Allocated(a1);
    var (a3, userStack) := Allocated(a2);
    var b1 := if stack != 0 then Released(a3, stack) else a3;
    var b2 := if code != 0 then Released(b1, code) else b1;
    var b3 := if userStack != 0 then Released(b2, userStack) else b2;
    (a3, b3)
  }

  /** The same for process_create_user: nothing was left for the directory, and all is restored. */
  lemma CreateUserRollsBack(a: Pool)
    requires PoolOk(a) && |a.free| < 4
    ensures UserRolledBack(a).0.free == {} && UserRolledBack(a).1 == a
  {
    if a.free == {} {
      return;
    }
    var p := TakenPage(a);
    RemoveOne(a.free, p);
    var a1 := Allocated(a).0;
    if a1.free == {} {
      hide Least;
      assert Allocated(a1) == (a1, 0);
      assert Released(a1, PAGE_SIZE * p) == a;
      return;
    }
    var q := TakenPage(a1);
    RemoveOne(a1.free, q);
    var a2 := Allocated(a1).0;
    if a2.free == {} {
      RollBackTwo(a, p, q);
    } else {
      var r := TakenPage(a2);
      RemoveOne(a2.free, r);
      RollBackThree(a, p, q, r);
    }
  }

  lemma RollBackTwo(a: Pool, p: nat, q: nat)
    requires PoolOk(a) && p in a.free && q in a.free - {p} && a.free - {p} - {q} == {}
    requires Allocated(a) == (a.(free := a.free - {p}), PAGE_SIZE * p)
    requires Allocated(a.(free := a.free - {p})) == (a.(free := {}), PAGE_SIZE * q)
    ensures UserRolledBack(a) == (a.(free := {}), a)
  {
    var a2 := a.(free := {});
    assert Allocated(a2) == (a2, 0);
    ReleasedAdds(a2, p);
    ReleasedAdds(a2.(free := {p}), q);
    hide Allocated, Released, Least;
    assert {} + {p} == {p};
    assert a.free == {p} + {q};
  }

  lemma RollBackThree(a: Pool, p: nat, q: nat, r: nat)
    requires PoolOk(a) && p in a.free && q in a.free - {p} && r in a.free - {p} - {q} && |a.free - {p} - {q} - {r}| == 0
    requires Allocated(a) == (a.(free := a.free - {p}), PAGE_SIZE * p)
    requires Allocated(a.(free := a.free - {p})) == (a.(free := a.free - {p} - {q}), PAGE_SIZE * q)
    requires Allocated(a.(free := a.free - {p} - {q})) == (a.(free := a.free - {p} - {q} - {r}), PAGE_SIZE * r)
    ensures UserRolledBack(a) == (a.(free := {}), a)
  {
    PutThreeBack(a.free, p, q, r);
    var a3 := a.(free := {});
    ReleasedAdds(a3, p);
    ReleasedAdds(a3.(free := {} + {p}), q);
    ReleasedAdds(a3.(free := {} + {p} + {q}), r);
    hide Allocated, Released, Least;
  }

  lemma ReleasedAdds(c: Pool, p: nat)
    requires 1 <= p < c.highest && c.highest <= MAX_PAGES
    ensures Released(c, PAGE_SIZE * p) == c.(free := c.free + {p})
  {
    assert PAGE_SIZE * p / PAGE_SIZE == p;
  }

  lemma RemoveOne(s: set<nat>, p: nat)
    requires p in s
    ensures |s - {p}| == |s| - 1
  {
  }

  lemma PutThreeBack(s: set<nat>, p: nat, q: nat, r: nat)
    requires p in s && q in s - {p} && r in s - {p} - {q} && |s - {p} - {q} - {r}| == 0
    ensures s - {p} - {q} - {r} == {}
    ensures s - {p} - {q} - {r} + {p} + {q} + {r} == s
  {
  }

  /** The page an allocation takes. */
  lemma TakenPage(a: Pool) returns (p: nat)
    requires PoolOk(a) && a.free != {}
    ensures p in a.free && p == Least(a.free)
    ensures Allocated(a) == (a.(free := a.free - {p}), PAGE_SIZE * p) && PAGE_SIZE * p != 0
    ensures forall q :: q in a.free ==> p <= q
  {
    p := Least(a.free);
  }

  // ------------------------------------------------- stores, step by step

  lemma FrameStored(m: seq<Word>, r: seq<Word>, context: Word, frame: seq<Word>)
    requires |m| == |r| == MEM_WORDS && FrameAddress(context) && |frame| == FRAME_WORDS
    requires forall k :: context / 4 <= k < context / 4 + FRAME_WORDS ==> r[k] == frame[k - context / 4]
    requires forall k :: 0 <= k < MEM_WORDS && !(context / 4 <= k < context / 4 + FRAME_WORDS) ==> r[k] == m[k]
    ensures r == WithFrame(m, context, frame)
  {
    IsSplice(m, r, context / 4, frame);
  }

  lemma NothingStored(m: seq<Word>, base: nat, image: seq<Byte>)
    requires |m| == MEM_WORDS && base + 1024 <= MEM_WORDS
    ensures Loaded(m, m, base, image[..0])
  {
    hide ImageWord;
    forall k | base <= k < base + 1024 ensures m[k] == ImageWord(m[k], image[..0], k - base) {
      NothingLoaded(m[k], image, k - base);
    }
  }

  lemma LoadedOnlyPage(m: seq<Word>, r: seq<Word>, page: nat, image: seq<Byte>)
    requires |m| == |r| == MEM_WORDS && page < MAX_FRAMES && Loaded(m, r, 1024 * page, image)
    ensures OnlyPage(m, r, page)
  {
  }

  /** A page stays ordinary while a directory is copied to another. */
  lemma OrdinaryAfterCopy(a: Pool, m: seq<Word>, cr3: Word, kernel: nat, page: nat)
    requires PoolOk(a) && |m| == MEM_WORDS && kernel < MAX_FRAMES && page < MAX_FRAMES
    requires DirectoryServed(a, m, cr3, kernel) && Ordinary(m, cr3, page)
    ensures Ordinary(NewDirectory(a, m, kernel).1, cr3, page)
  {
    if a.free != {} {
      hide Reaches, OffTables, DirectoryCopy;
      ReachesKept(m, NewDirectory(a, m, kernel).1, cr3, Least(a.free), page);
    }
  }

  lemma OrdinaryAfterLoad(m: seq<Word>, cr3: Word, code: nat, image: seq<Byte>, page: nat)
    requires |m| == MEM_WORDS && code < MAX_FRAMES && page < MAX_FRAMES
    requires Ordinary(m, cr3, code) && Ordinary(m, cr3, page)
    ensures Ordinary(Splice(m, 1024 * code, LoadedPage(m, code, image)), cr3, page)
  {
    hide Reaches, OffTables, LoadedPage;
    ReachesKept(m, Splice(m, 1024 * code, LoadedPage(m, code, image)), cr3, code, page);
  }

  // ------------------------------------------------------------ the class

  class ProcessTable {
    const layout: Layout
    const tables: PageTables
    const slots: array<Slot>
    var nextPid: Word
    var running: nat
    /** tss.esp0 */
    var esp0: Word

    constructor (layout: Layout, tables: PageTables, size: nat)
      ensures this.layout == layout && this.tables == tables && slots.Length == size && fresh(slots)
      ensures nextPid == 1 && running == 0
    {
      this.layout, this.tables := layout, tables;
      slots := new Slot[size](_ => EMPTY_SLOT);
      nextPid, running, esp0 := 1, 0, 0;
    }

    ghost predicate Valid()
      reads this, slots, tables, tables.pmm, tables.pmm.bitmap
    {
      && tables.Valid() && tables.pageDirectory == layout.pageDirectory
      && 1 <= slots.Length < 0x8000_0000 && running < slots.Length
      && FrameAddress(BootstrapContext(layout))
      && (slots as object) != tables.ram && (slots as object) != tables.pmm.bitmap
    }

    ghost function View(): (t: Table)
      requires Valid()
      reads this, slots, tables, tables.ram, tables.pmm, tables.pmm.bitmap
      ensures TableOk(t)
    {
      Table(tables.pmm.View(), tables.ram[..], slots[..], nextPid, running, esp0)
    }

    /** Write an initial context: clear it, then set its fields. */
    method InitFrame(context: Word, eip: Word, cs: Word, esp: Word, userEsp: Word, userSs: Word)
      requires tables.ram.Length == MEM_WORDS && Aligned(tables.cr3) && FrameAddress(context)
      requires FrameServed(tables.ram[..], tables.cr3, context)
      modifies tables.ram
      ensures tables.ram[..] == WithFrame(old(tables.ram[..]), context, InitialFrame(eip, cs, esp, userEsp, userSs))
    {
      hide FrameServed, WithFrame, Reaches, Splice;
      ghost var m := tables.ram[..];
      ZeroFrame(context);
      SetFrameWord(m, context, 10, eip);
      SetFrameWord(m, context, 11, cs);
      SetFrameWord(m, context, 12, 0x202);
      SetFrameWord(m, context, 3, esp);
      SetFrameWord(m, context, 13, userEsp);
      SetFrameWord(m, context, 14, userSs);
      FrameStored(m, tables.ram[..], context, InitialFrame(eip, cs, esp, userEsp, userSs));
    }

    /** One field of a context that was served in memory m, of which only it has changed. */
    method SetFrameWord(ghost m: seq<Word>, context: Word, j: nat, w: Word)
      requires tables.ram.Length == |m| == MEM_WORDS && Aligned(tables.cr3) && FrameAddress(context) && j < FRAME_WORDS
      requires FrameServed(m, tables.cr3, context)
      requires forall k :: 0 <= k < MEM_WORDS && !(context / 4 <= k < context / 4 + FRAME_WORDS) ==>
                 tables.ram[k] == m[k]
      modifies tables.ram
      ensures tables.ram[context / 4 + j] == w
      ensures forall k :: 0 <= k < MEM_WORDS && k != context / 4 + j ==> tables.ram[k] == old(tables.ram[k])
    {
      hide FrameServed, Reaches;
      FrameStill(m, tables.ram[..], tables.cr3, context, j);
      tables.Write(context + 4 * j, w);
    }

    method Create(entry: Word, argument: Word) returns (pid: Option<Word>)
      requires Valid() && CreateServed(layout, View(), tables.cr3, entry)
      modifies this, slots, tables.ram, tables.pmm, tables.pmm.bitmap
      ensures Valid()
      ensures View() == Created(layout, old(View()), entry, argument).0
      ensures pid == Created(layout, old(View()), entry, argument).1
    {
      if entry == 0 {
        return None;
      }
      var i := 1;
      while i < slots.Length
        invariant 1 <= i <= slots.Length
        invariant Valid() && View() == old(View())
        invariant FirstReusable(slots[..], i) == FirstReusable(slots[..], 1)
      {
        if slots[i].state == Unused || slots[i].state == Zombie {
          pid := CreateIn(i, entry, argument);
          return;
        }
        i := i + 1;
      }
      pid := None;
    }

    /** The two pages of a kernel process, or nothing at all. */
    method TakePages() returns (ok: bool, stack: Word, directory: Word)
      requires Valid()
      requires DirectoryServed(Allocated(tables.pmm.View()).0, tables.ram[..], tables.cr3,
                 layout.pageDirectory / 0x1000)
      modifies tables.ram, tables.pmm, tables.pmm.bitmap
      ensures Valid()
      ensures ok <==> |old(tables.pmm.View()).free| >= 2
      ensures !ok ==> View() == old(View())
      ensures ok ==> var (pool1, s) := Allocated(old(tables.pmm.View()));
                     var (pool2, mem, d) := NewDirectory(pool1, old(tables.ram[..]), layout.pageDirectory / 0x1000);
                     stack == s != 0 && directory == d && View() == old(View()).(pool := pool2, mem := mem)
    {
      hide FreePages, Splice, Least, IsLeast, NewDirectory, DirectoryServed;
      ghost var a := tables.pmm.View();
      FailureIsMonotone(a);
      stack := tables.pmm.AllocatePage();
      FailureIsMonotone(tables.pmm.View());
      directory := tables.CreatePageDirectory();
      if stack == 0 || directory == 0 {
        CreateRollsBack(a);
        if stack != 0 {
          tables.pmm.FreePage(stack);
        }
        return false, 0, 0;
      }
      ok := true;
    }

    /** process_create once slot i has been chosen. */
    method CreateIn(i: nat, entry: Word, argument: Word) returns (pid: Option<Word>)
      requires Valid() && entry != 0 && 1 <= i < slots.Length && FirstReusable(slots[..], 1) == Some(i)
      requires CreateServed(layout, View(), tables.cr3, entry)
      modifies this, slots, tables.ram, tables.pmm, tables.pmm.bitmap
      ensures Valid()
      ensures View() == Created(layout, old(View()), entry, argument).0
      ensures pid == Created(layout, old(View()), entry, argument).1
    {
      hide FirstReusable, FreePages, Splice, Least, IsLeast, NewDirectory, Wrap32, InitialFrame;
      hide DirectoryServed, Ordinary, FrameServed;
      ghost var a, m := tables.pmm.View(), tables.ram[..];
      FailureIsMonotone(a);
      var ok, stack, directory := TakePages();
      if !ok {
        return None;
      }
      TopFrameWords(stack / 0x1000);
      OrdinaryAfterCopy(Allocated(a).0, m, tables.cr3, layout.pageDirectory / 0x1000, stack / 0x1000);
      StackFrameServed(tables.ram[..], tables.cr3, stack / 0x1000);
      slots[i] := Slot(nextPid, Ready, directory, stack, TopFrame(stack), entry, argument, false, false, 0, 0);
      pid := Some(nextPid);
      nextPid := Wrap32(nextPid + 1);
      InitFrame(TopFrame(stack), layout.bootstrapEntry, 0x08, Wrap32(stack as int + 4096 - 20), StackTop(stack), 0x10);
    }

    /** The four pages of a user process, or nothing at all. */
    method TakeUserPages() returns (ok: bool, p: UserPages)
      requires Valid()
      requires DirectoryServed(ThreeTaken(tables.pmm.View()), tables.ram[..], tables.cr3, layout.pageDirectory / 0x1000)
      modifies tables.ram, tables.pmm, tables.pmm.bitmap
      ensures Valid()
      ensures ok <==> |old(tables.pmm.View()).free| >= 4
      ensures !ok ==> View() == old(View())
      ensures ok ==> var (pool, mem, q) := UserPagesTaken(layout, old(View()));
                     p == q && p.stack != 0 && View() == old(View()).(pool := pool, mem := mem)
    {
      hide FreePages, Splice, Least, IsLeast, NewDirectory, Allocated, Released, DirectoryServed;
      ghost var a := tables.pmm.View();
      FailureIsMonotone(a);
      var stack := tables.pmm.AllocatePage();
      FailureIsMonotone(tables.pmm.View());
      var code := tables.pmm.AllocatePage();
      FailureIsMonotone(tables.pmm.View());
      var userStack := tables.pmm.AllocatePage();
      var directory := tables.CreatePageDirectory();
      p := UserPages(stack, code, userStack, directory);
      if stack == 0 || code == 0 || userStack == 0 || directory == 0 {
        CreateUserRollsBack(a);
        if stack != 0 {
          tables.pmm.FreePage(stack);
        }
        if code != 0 {
          tables.pmm.FreePage(code);
        }
        if userStack != 0 {
          tables.pmm.FreePage(userStack);
        }
        return false, p;
      }
      ok := true;
    }

    /** Byte j of the page at a page-aligned pointer. */
    method StoreByte(pointer: Word, j: nat, value: Byte)
      requires tables.ram.Length == MEM_WORDS && Aligned(tables.cr3) && Aligned(pointer) && j < 4096
      requires Reaches(tables.ram[..], tables.cr3, pointer / 0x1000)
      modifies tables.ram
      ensures var k := 1024 * (pointer / 0x1000) + j / 4;
              tables.ram[..] == old(tables.ram[..])[k := SetByte(old(tables.ram[k]), j % 4, value)]
    {
      hide Reaches, SetByte;
      ElementAddress(pointer, j / 4);
      var w := tables.Read(pointer + 4 * (j / 4));
      tables.Write(pointer + 4 * (j / 4), SetByte(w, j % 4, value));
    }

    method LoadImage(code: Word, image: seq<Byte>)
      requires tables.ram.Length == MEM_WORDS && Aligned(tables.cr3) && Aligned(code) && |image| <= 4096
      requires Ordinary(tables.ram[..], tables.cr3, code / 0x1000)
      modifies tables.ram
      ensures var page := code / 0x1000;
              tables.ram[..] == Splice(old(tables.ram[..]), 1024 * page, LoadedPage(old(tables.ram[..]), page, image))
    {
      hide SetByte, ImageWord, Loaded, Ordinary, Reaches;
      PointerIndex(code);
      ghost var m, base := tables.ram[..], 1024 * (code / 0x1000);
      NothingStored(m, base, image);
      var j := 0;
      while j < |image|
        invariant 0 <= j <= |image|
        invariant Loaded(m, tables.ram[..], base, image[..j])
      {
        ghost var before := tables.ram[..];
        LoadedOnlyPage(m, before, code / 0x1000, image[..j]);
        StillOrdinary(m, before, tables.cr3, code / 0x1000);
        StoreByte(code, j, image[j]);
        ImageStep(m, before, tables.ram[..], base, image, j);
        j := j + 1;
      }
      assert image[..j] == image;
      LoadedIsSplice(m, tables.ram[..], code / 0x1000, image);
    }

    method CreateUser(image: Option<seq<Byte>>) returns (pid: Option<Word>)
      requires Valid() && CreateUserServed(layout, View(), tables.cr3, image)
      modifies this, slots, tables.ram, tables.pmm, tables.pmm.bitmap
      ensures Valid()
      ensures View() == CreatedUser(layout, old(View()), image).0
      ensures pid == CreatedUser(layout, old(View()), image).1
    {
      if image == None || |image.value| == 0 || |image.value| > 4096 {
        return None;
      }
      var i := 1;
      while i < slots.Length
        invariant 1 <= i <= slots.Length
        invariant Valid() && View() == old(View())
        invariant FirstReusable(slots[..], i) == FirstReusable(slots[..], 1)
      {
        if slots[i].state == Unused || slots[i].state == Zombie {
          pid := CreateUserIn(i, image.value);
          return;
        }
        i := i + 1;
      }
      pid := None;
    }

    /** process_create_user once slot i has been chosen. */
    method CreateUserIn(i: nat, image: seq<Byte>) returns (pid: Option<Word>)
      requires Valid() && 0 < |image| <= 4096 && 1 <= i < slots.Length && FirstReusable(slots[..], 1) == Some(i)
      requires CreateUserServed(layout, View(), tables.cr3, Some(image))
      modifies this, slots, tables.ram, tables.pmm, tables.pmm.bitmap
      ensures Valid()
      ensures View() == CreatedUser(layout, old(View()), Some(image)).0
      ensures pid == CreatedUser(layout, old(View()), Some(image)).1
    {
      hide FirstReusable, FreePages, Splice, UserPagesTaken, MapIn, LoadedPage, Wrap32, InitialFrame;
      hide DirectoryServed, MapServed, ThreeTaken, Ordinary, FrameServed;
      var ok, p := TakeUserPages();
      if !ok {
        return None;
      }
      tables.MapPageIn(p.directory, USER_CODE_ADDRESS, p.code, 0x55);
      tables.MapPageIn(p.directory, USER_STACK_TOP - 4096, p.userStack, 0x55);
      ghost var m := tables.ram[..];
      LoadImage(p.code, image);
      OrdinaryAfterLoad(m, tables.cr3, p.code / 0x1000, image, p.stack / 0x1000);
      TopFrameWords(p.stack / 0x1000);
      StackFrameServed(tables.ram[..], tables.cr3, p.stack / 0x1000);
      slots[i] := Slot(nextPid, Ready, p.directory, p.stack, TopFrame(p.stack), 0, 0, false, true, p.code, p.userStack);
      pid := Some(nextPid);
      nextPid := Wrap32(nextPid + 1);
      InitFrame(TopFrame(p.stack), USER_CODE_ADDRESS, 0x1b, 0, USER_STACK_TOP - 16, 0x23);
    }

    /** process_terminate_current; process_exit makes the same change. */
    method Terminate()
      requires Valid()
      modifies slots
      ensures Valid() && View() == Terminated(old(View()))
    {
      if !slots[running].bootstrap {
        slots[running] := slots[running].(state := Zombie);
      }
    }

    method Count() returns (count: Word)
      requires Valid()
      ensures count == |Runnables(slots[..])|
    {
      count := 0;
      var i := 0;
      assert Runnables(slots[..0]) == {};
      hide Runnables, FreePages;
      while i < slots.Length
        invariant 0 <= i <= slots.Length
        invariant count == |Runnables(slots[..i])| && count <= i
      {
        OneMoreSlot(slots[..], i);
        if slots[i].state == Ready || slots[i].state == Running {
          count := Wrap32(count + 1);
        }
        i := i + 1;
      }
      assert slots[..i] == slots[..];
    }

    /** process_by_pid: the first slot in use that has the pid. */
    method ByPid(pid: Word) returns (r: Option<nat>)
      requires Valid()
      ensures r.Some? ==> r.value < slots.Length && slots[r.value].state != Unused && slots[r.value].pid == pid
      ensures r == None ==> forall i :: 0 <= i < slots.Length ==> slots[i].state == Unused || slots[i].pid != pid
      ensures r.Some? ==> forall i :: 0 <= i < r.value ==> slots[i].state == Unused || slots[i].pid != pid
    {
      var i := 0;
      while i < slots.Length
        invariant 0 <= i <= slots.Length
        invariant forall j :: 0 <= j < i ==> slots[j].state == Unused || slots[j].pid != pid
      {
        if slots[i].state != Unused && slots[i].pid == pid {
          return Some(i);
        }
        i := i + 1;
      }
      r := None;
    }

    /** process_next_round_robin: dispatch the next runnable slot and point the TSS at its stack. */
    method NextRoundRobin()
      requires Valid()
      modifies this, slots
      ensures Valid() && View() == RoundRobin(layout, old(View()))
    {
      var n := slots.Length;
      var step := 1;
      while step <= n
        invariant 1 <= step <= n + 1
        invariant Valid() && View() == old(View())
        invariant FirstStep(slots[..], running, step) == FirstStep(slots[..], running, 1)
      {
        AroundIsMod(n, running, step);
        var index := (running + step) % n;
        if slots[index].state == Ready || slots[index].state == Running {
          running := index;
          slots[running] := slots[running].(state := Running);
          esp0 := KernelStackTop(layout, slots[running]);
          return;
        }
        step := step + 1;
      }
    }

    /** process_save_context: copy the interrupted context to where the running slot keeps it. */
    method SaveContext(context: Word)
      requires Valid() && FrameAddress(context) && FrameAddress(slots[running].context)
      requires SaveServed(layout, View(), tables.cr3, context)
      modifies slots, tables.ram
      ensures Valid() && View() == ContextSaved(layout, old(View()), context)
    {
      hide FrameServed, FrameReached, WithFrame, FrameAt, FreePages, BootstrapContext;
      if slots[running].bootstrap {
        CopyFrame(BootstrapContext(layout), context);
        slots[running] := slots[running].(context := BootstrapContext(layout));
        return;
      }
      if slots[running].context == context {
        return;
      }
      CopyFrame(slots[running].context, context);
    }

    /** Structure assignment of a context. */
    method CopyFrame(to: Word, from: Word)
      requires tables.ram.Length == MEM_WORDS && Aligned(tables.cr3) && FrameAddress(to) && FrameAddress(from)
      requires FrameReached(tables.ram[..], tables.cr3, from) && FrameServed(tables.ram[..], tables.cr3, to)
      modifies tables.ram
      ensures tables.ram[..] == WithFrame(old(tables.ram[..]), to, FrameAt(old(tables.ram[..]), from))
    {
      hide FrameServed, WithFrame, Reaches, Splice;
      ghost var m := tables.ram[..];
      var frame := LoadFrame(from);
      var j := 0;
      while j < 15
        invariant 0 <= j <= 15
        invariant forall k :: to / 4 <= k < to / 4 + j ==> tables.ram[k] == frame[k - to / 4]
        invariant forall k :: 0 <= k < MEM_WORDS && !(to / 4 <= k < to / 4 + j) ==> tables.ram[k] == m[k]
      {
        SetFrameWord(m, to, j, frame[j]);
        j := j + 1;
      }
      FrameStored(m, tables.ram[..], to, frame);
    }

    method LoadFrame(from: Word) returns (frame: seq<Word>)
      requires tables.ram.Length == MEM_WORDS && Aligned(tables.cr3) && FrameAddress(from)
      requires FrameReached(tables.ram[..], tables.cr3, from)
      ensures frame == FrameAt(tables.ram[..], from)
    {
      frame := [];
      var j := 0;
      while j < 15
        invariant 0 <= j <= 15 && frame == tables.ram[from / 4..from / 4 + j]
      {
        FramePage(from, j);
        hide Reaches;
        var w := tables.Read(from + 4 * j);
        frame := frame + [w];
        j := j + 1;
      }
    }

    /** process_system_init */
    method SystemInit()
      requires Valid() && FrameServed(tables.ram[..], tables.cr3, BootstrapContext(layout))
      modifies this, slots, tables.ram
      ensures Valid() && View() == SystemStarted(layout, old(View()))
    {
      hide WithFrame, FrameServed, FreePages, BootstrapContext, KernelStackTop;
      ZeroFrame(BootstrapContext(layout));
      var i := 0;
      while i < slots.Length
        invariant 0 <= i <= slots.Length
        invariant forall j :: 0 <= j < i ==> slots[j] == EMPTY_SLOT
        invariant Valid() && nextPid == old(nextPid)
        invariant tables.ram[..] == WithFrame(old(tables.ram[..]), BootstrapContext(layout), EmptyFrame())
        invariant tables.pmm.View() == old(tables.pmm.View())
      {
        slots[i] := EMPTY_SLOT;
        i := i + 1;
      }
      running := 0;
      slots[0] := BootstrapSlot(layout);
      esp0 := KernelStackTop(layout, slots[0]);
      assert slots[..] == StartingSlots(layout, slots.Length);
    }

    method ZeroFrame(context: Word)
      requires tables.ram.Length == MEM_WORDS && Aligned(tables.cr3) && FrameAddress(context)
      requires FrameServed(tables.ram[..], tables.cr3, context)
      modifies tables.ram
      ensures tables.ram[..] == WithFrame(old(tables.ram[..]), context, EmptyFrame())
      ensures forall k :: context / 4 <= k < context / 4 + FRAME_WORDS ==> tables.ram[k] == 0
      ensures forall k :: 0 <= k < MEM_WORDS && !(context / 4 <= k < context / 4 + FRAME_WORDS) ==>
                            tables.ram[k] == old(tables.ram[k])
    {
      hide FrameServed, WithFrame, Reaches, Splice;
      ghost var m, base := tables.ram[..], context / 4;
      var j := 0;
      while j < 15
        invariant 0 <= j <= 15
        invariant forall k :: base <= k < base + j ==> tables.ram[k] == 0
        invariant forall k :: 0 <= k < MEM_WORDS && !(base <= k < base + j) ==> tables.ram[k] == m[k]
      {
        SetFrameWord(m, context, j, 0);
        j := j + 1;
      }
      FrameStored(m, tables.ram[..], context, EmptyFrame());
    }
  }
}
