/**
 What ring 3 reaches: in every reachable state two pages at most, those of the
 newest user process; which ranges system calls accept; and what a new process
 finds at its code address.
 */
module Protection {
  import opened Options
  import opened Machine
  import opened Memory
  import opened Pmm
  import opened Paging
  import opened Process
  import opened Runs
  import opened Creation
  import opened Pointers
  import opened KernelTheorems

  // ---------------------------------------------------- memory protection

  /** Which translations carry the user bit, and to which frame, through a directory in order. */
  ghost predicate UserOnly(m: seq<Word>, dir: nat, user: bool, s: System, va: Word)
    requires |m| == MEM_WORDS && dir < MAX_FRAMES
  {
    var t := Translate(m, dir, va);
    && (t != Fault && t.user <==> user && Redirected(s, va / 0x1000))
    && (t != Fault && t.user ==> t.frame == WindowPage(s, va / 0x1000))
  }

  lemma DirectoryProtects(l: Layout, s: System, directory: Word, user: bool, va: Word)
    requires LayoutOk(l) && TableOk(s.t) && WindowOk(l, s) && DirectoryOk(l, s.t.mem, directory, user)
    requires directory / 0x1000 < MAX_FRAMES
    ensures UserOnly(s.t.mem, directory / 0x1000, user, s, va)
  {
    hide MakeEntry, Present, Frame, UserBit, DirIndex, TableIndex, LayoutOk;
    var m, dir, i, j := s.t.mem, directory / 0x1000, DirIndex(va), TableIndex(va);
    PageOfIndexes(va);
    StartPages(l);
    assert Entry(m, dir, i) == SlotWord(l, dir, user, i);
    if i < 4 {
      var p := 1024 * i + j;
      DivModUnique(p, 1024, i, j);
      assert WindowEntry(l, m, p) == MakeEntry(WindowPage(s, p), Redirected(s, p));
      EntryDigits(Tb(l) + i, user && i == 1);
      EntryDigits(WindowPage(s, p), Redirected(s, p));
    } else if i == 1023 {
      EntryDigits(dir, false);
    } else {
      ZeroAbsent();
    }
  }

  /**
   In every reachable state, through every directory: an address ring 3 may use
   is on the user code page and leads to the newest user process's code page, or
   on the user stack page and leads to its stack page.
   */
  lemma RingThreeSeesTwoPages(l: Layout, s: System, directory: Word, va: Word)
    requires Inv(l, s) && IsDirectory(l, s, directory)
    ensures directory / 0x1000 < MAX_FRAMES
    ensures UserReaches(s.t.mem, directory / 0x1000, va) ==>
              && s.users > 0
              && var frame := Translate(s.t.mem, directory / 0x1000, va).frame;
                 || (va / 0x1000 == CODE_SLOT && frame == s.latestCode)
                 || (va / 0x1000 == STACK_SLOT && frame == s.latestStack)
  {
    hide FramesOk, DirectoryOk, LatestOk, PagesDisjoint, PidsOk, WindowOk, ReachOk, Translate;
    if directory == l.pageDirectory {
      DirectoryProtects(l, s, directory, false, va);
    } else {
      var i :| InUse(s.t, i) && directory == s.t.slots[i].directory;
      DirectoryProtects(l, s, directory, s.t.slots[i].user, va);
    }
  }

  /** The slot's own directory lets ring 3 reach exactly the two user pages, and for a kernel thread none. */
  lemma SlotProtects(l: Layout, s: System, i: nat, va: Word)
    requires Inv(l, s) && InUse(s.t, i)
    ensures s.t.slots[i].directory / 0x1000 < MAX_FRAMES
    ensures UserReaches(s.t.mem, s.t.slots[i].directory / 0x1000, va) <==>
              s.t.slots[i].user && (va / 0x1000 == CODE_SLOT || va / 0x1000 == STACK_SLOT)
  {
    hide FramesOk, DirectoryOk, PagesDisjoint, PidsOk, WindowOk, ReachOk, Translate;
    DirectoryProtects(l, s, s.t.slots[i].directory, s.t.slots[i].user, va);
  }

  /** x lies on the user code page or on the user stack page. */
  predicate OnUserPage(x: int) {
    0x40_0000 <= x < 0x40_1000 || 0x7f_f000 <= x < 0x80_0000
  }

  lemma UserPageNumbers(x: Word)
    ensures x / 0x1000 == CODE_SLOT || x / 0x1000 == STACK_SLOT <==> OnUserPage(x)
  {
  }

  /**
   What user_range_valid accepts for a process in the table: a nonempty range
   exactly when the process is a user process and the range lies wholly on the
   user code page or wholly on the user stack page.
   */
  lemma ValidUserRanges(l: Layout, s: System, i: nat, address: Word, length: Word)
    requires Inv(l, s) && InUse(s.t, i) && length > 0
    ensures s.t.slots[i].directory / 0x1000 < MAX_FRAMES
    ensures (forall x :: address <= x < address + length ==>
               UserByte(s.t.mem, s.t.slots[i].directory / 0x1000, x))
            <==> && s.t.slots[i].user
                 && (|| (0x40_0000 <= address && address + length <= 0x40_1000)
                     || (0x7f_f000 <= address && address + length <= 0x80_0000))
  {
    Basics(l, s);
    SlotProtects(l, s, i, address);
    var m, dir, user := s.t.mem, s.t.slots[i].directory / 0x1000, s.t.slots[i].user;
    forall x ensures UserByte(m, dir, x) <==> user && OnUserPage(x) {
      if 0 <= x < USER_LIMIT {
        SlotProtects(l, s, i, x);
        UserPageNumbers(x);
      }
    }
    hide Inv, UserByte;
    RangeOnOnePage(address, length);
    var end := address + length;
    if forall x :: address <= x < end ==> UserByte(m, dir, x) {
      assert forall x :: address <= x < end ==> OnUserPage(x);
      assert UserByte(m, dir, address);
    } else {
      var x :| address <= x < end && !UserByte(m, dir, x);
    }
  }

  /** The two pages are apart, so a range on both would leave them in between. */
  lemma RangeOnOnePage(address: nat, length: nat)
    requires length > 0
    ensures (forall x :: address <= x < address + length ==> OnUserPage(x))
            <==> || (0x40_0000 <= address && address + length <= 0x40_1000)
                 || (0x7f_f000 <= address && address + length <= 0x80_0000)
  {
    var last := address + length - 1;
    if forall x :: address <= x < address + length ==> OnUserPage(x) {
      assert OnUserPage(address) && OnUserPage(last);
      assert address <= 0x40_1000 < address + length ==> OnUserPage(0x40_1000);
    }
  }

  // ------------------------------------------------------ flags of mappings

  /** What a directory in order and the window hold: entries with the three low flags at most. */
  lemma DirectoryFlags(l: Layout, s: System, directory: Word, user: bool, va: Word)
    requires LayoutOk(l) && TableOk(s.t) && WindowOk(l, s) && DirectoryOk(l, s.t.mem, directory, user)
    requires directory / 0x1000 < MAX_FRAMES && DirIndex(va) < 4
    ensures var pde := Entry(s.t.mem, directory / 0x1000, DirIndex(va));
            pde % 0x1000 in {3, 7} && LeafEntry(s.t.mem, directory / 0x1000, va) % 0x1000 in {3, 7}
  {
    hide MakeEntry, Present, Frame, UserBit, DirIndex, TableIndex, LayoutOk;
    var m, dir, i, j := s.t.mem, directory / 0x1000, DirIndex(va), TableIndex(va);
    var p := 1024 * i + j;
    StartPages(l);
    assert Entry(m, dir, i) == SlotWord(l, dir, user, i);
    DivModUnique(p, 1024, i, j);
    assert WindowEntry(l, m, p) == MakeEntry(WindowPage(s, p), Redirected(s, p));
    EntryDigits(Tb(l) + i, user && i == 1);
    EntryFlags(Tb(l) + i, user && i == 1);
    EntryFlags(WindowPage(s, p), Redirected(s, p));
  }

  /** In every reachable state every mapping of the first 16 MiB is writable, through every directory. */
  lemma MappingsAreWritable(l: Layout, s: System, directory: Word, va: Word)
    requires Inv(l, s) && IsDirectory(l, s, directory) && va < 0x100_0000
    ensures directory / 0x1000 < MAX_FRAMES
    ensures Entry(s.t.mem, directory / 0x1000, DirIndex(va)) / 2 % 2 == 1
    ensures LeafEntry(s.t.mem, directory / 0x1000, va) / 2 % 2 == 1
  {
    hide FramesOk, DirectoryOk, LatestOk, PagesDisjoint, PidsOk, WindowOk, ReachOk, LeafEntry;
    if directory == l.pageDirectory {
      DirectoryFlags(l, s, directory, false, va);
    } else {
      var i :| InUse(s.t, i) && directory == s.t.slots[i].directory;
      DirectoryFlags(l, s, directory, s.t.slots[i].user, va);
    }
    WriteBit(Entry(s.t.mem, directory / 0x1000, DirIndex(va)));
    WriteBit(LeafEntry(s.t.mem, directory / 0x1000, va));
  }

  lemma WriteBit(e: Word)
    ensures e % 0x1000 in {3, 7} ==> e / 2 % 2 == 1
  {
    var q, r := e / 0x1000, e % 0x1000;
    DivModUnique(e, 2, 0x800 * q + r / 2, r % 2);
    DivModUnique(0x800 * q + r / 2, 2, 0x400 * q + r / 4, r / 2 % 2);
  }

  /** Through the last page every directory of the system shows itself, to the kernel only. */
  lemma DirectoryShowsItself(l: Layout, s: System, directory: Word, o: nat)
    requires Inv(l, s) && IsDirectory(l, s, directory) && o < 0x1000
    ensures directory / 0x1000 < MAX_FRAMES
    ensures Translate(s.t.mem, directory / 0x1000, 0xffff_f000 + o) == To(directory / 0x1000, false)
  {
    hide FramesOk, DirectoryOk, LatestOk, PagesDisjoint, PidsOk, WindowOk, ReachOk, Translate;
    if directory == l.pageDirectory {
      LastSlot(l, s.t.mem, directory, false, o);
    } else {
      var i :| InUse(s.t, i) && directory == s.t.slots[i].directory;
      LastSlot(l, s.t.mem, directory, s.t.slots[i].user, o);
    }
  }

  lemma LastSlot(l: Layout, m: seq<Word>, directory: Word, user: bool, o: nat)
    requires LayoutOk(l) && |m| == MEM_WORDS && Tb(l) + 4 <= MAX_FRAMES && DirectoryOk(l, m, directory, user)
    requires directory / 0x1000 < MAX_FRAMES && o < 0x1000
    ensures Translate(m, directory / 0x1000, 0xffff_f000 + o) == To(directory / 0x1000, false)
  {
    hide MakeEntry, Present, Frame, UserBit, LayoutOk;
    var dir := directory / 0x1000;
    assert Entry(m, dir, 1023) == SlotWord(l, dir, user, 1023);
    EntryDigits(dir, false);
    assert DirIndex(0xffff_f000 + o) == TableIndex(0xffff_f000 + o) == 1023;
  }

  // ------------------------------------------------- the image in its place

  /** The byte a ring 3 load from va gets; None for a page fault. */
  ghost function UserLoad(m: seq<Word>, dir: nat, va: Word): Option<Byte>
    requires |m| == MEM_WORDS && dir < MAX_FRAMES
  {
    if UserReaches(m, dir, va) then
      Some(ByteOf(Entry(m, Translate(m, dir, va).frame, va % 0x1000 / 4), va % 4))
    else None
  }

  /** The new process's code page holds the image, then what it held before. */
  lemma CodePageLoaded(l: Layout, t: Table, image: Option<seq<Byte>>) returns (c: nat)
    requires TableOk(t) && LayoutOk(l) && PoolAbove(l, t.pool) && DirectoryOk(l, t.mem, l.pageDirectory, false)
    requires CreatedUser(l, t, image).1.Some?
    ensures FirstReusable(t.slots, 1).Some? && image.Some? && c < MAX_FRAMES
    ensures var t', i := CreatedUser(l, t, image).0, FirstReusable(t.slots, 1).value;
            && |t'.mem| == MEM_WORDS && i < |t'.slots| && t'.slots[i].codeBase == 0x1000 * c
            && forall k :: 0 <= k < 1024 ==> Entry(t'.mem, c, k) == ImageWord(Entry(t.mem, c, k), image.value, k)
  {
    hide CreatedUser, UserSpace, UserPagesTaken, DirectoryOk, UserMapped, InnerKept, UserLoaded, LayoutOk, PoolAbove;
    hide ImageWord, TopFrame, Wrap32, Entry;
    CreatedUserNeeds(l, t, image);
    var p, d, u;
    p, c, u, d := UserSpaceShape(l, t);
    var m2 := UserSpace(l, t).1;
    CreatedUserFills(l, t, image, p, c, u, d);
    FilledMemory(t, UserLoaded(m2, image.value, p, c), p, c, u, d);
    LoadedWords(m2, image.value, p, c);
  }

  lemma LoadedWords(m: seq<Word>, image: seq<Byte>, p: nat, c: nat)
    requires |m| == MEM_WORDS && p < MAX_FRAMES && c < MAX_FRAMES && p != c
    ensures forall k :: 0 <= k < 1024 ==>
              Entry(UserLoaded(m, image, p, c), c, k) == ImageWord(Entry(m, c, k), image, k)
  {
    hide Splice, WithFrame, FrameAt, UserFrame, ImageWord, Entry;
    PageWritten(m, c, LoadedPage(m, c, image));
    FrameWritten(Splice(m, 1024 * c, LoadedPage(m, c, image)), p, UserFrame());
  }

  /**
   Byte o of the page a new user process sees at its code address is byte o of
   the image, and past the image what the page held before.
   */
  lemma ImageAtUserAddress(l: Layout, s: System, image: Option<seq<Byte>>, o: nat)
    requires Inv(l, s) && Enabled(l, s, CreateUser(image)) && CreatedUser(l, s.t, image).1.Some? && o < 4096
    ensures FirstReusable(s.t.slots, 1).Some? && image.Some?
    ensures var s', i := Step(l, s, CreateUser(image)), FirstReusable(s.t.slots, 1).value;
            && i < |s'.t.slots| && |s'.t.mem| == MEM_WORDS
            && var n := s'.t.slots[i];
               && n.directory / 0x1000 < MAX_FRAMES && n.codeBase / 0x1000 < MAX_FRAMES
               && UserLoad(s'.t.mem, n.directory / 0x1000, USER_CODE_ADDRESS + o)
                  == Some(if o < |image.value| then image.value[o]
                          else ByteOf(Entry(s.t.mem, n.codeBase / 0x1000, o / 4), o % 4))
  {
    Basics(l, s);
    var c := CodePageLoaded(l, s.t, image);
    UserCreationSound(l, s, image);
    StepKeepsInv(l, s, CreateUser(image));
    var s', i := Step(l, s, CreateUser(image)), FirstReusable(s.t.slots, 1).value;
    hide Inv, Enabled, Lowest, Translate, CreatedUser, UserPagesFit, Sound, LayoutOk, FirstReusable, UserLoad;
    hide DirectoryOk, ImageWord, ByteOf, Entry;
    UserAddressesShowNewest(l, s', i);
    LoadedThrough(s.t.mem, s'.t.mem, s'.t.slots[i].directory / 0x1000, c, image.value, o);
  }

  lemma LoadedThrough(m: seq<Word>, m': seq<Word>, dir: nat, c: nat, image: seq<Byte>, o: nat)
    requires |m| == |m'| == MEM_WORDS && dir < MAX_FRAMES && c < MAX_FRAMES && o < 4096
    requires Translate(m', dir, USER_CODE_ADDRESS) == To(c, true)
    requires forall k :: 0 <= k < 1024 ==> Entry(m', c, k) == ImageWord(Entry(m, c, k), image, k)
    ensures UserLoad(m', dir, USER_CODE_ADDRESS + o)
            == Some(if o < |image| then image[o] else ByteOf(Entry(m, c, o / 4), o % 4))
  {
    hide Translate, ImageWord, ByteOf, Entry, ImageByte;
    CodeOffset(m', dir, o);
    LoadedBytes(Entry(m, c, o / 4), image, o / 4, o % 4);
    ImageByteAt(Entry(m, c, o / 4), image, o);
  }

  lemma ImageByteAt(w: Word, image: seq<Byte>, o: nat)
    ensures ImageByte(w, image, o / 4, o % 4) == if o < |image| then image[o] else ByteOf(w, o % 4)
  {
    hide ByteOf;
    assert 4 * (o / 4) + o % 4 == o;
  }

  /** Addresses of the code page translate as its first one does. */
  lemma CodeOffset(m: seq<Word>, dir: nat, o: nat)
    requires |m| == MEM_WORDS && dir < MAX_FRAMES && o < 4096
    ensures Translate(m, dir, USER_CODE_ADDRESS + o) == Translate(m, dir, USER_CODE_ADDRESS)
    ensures (USER_CODE_ADDRESS + o) % 0x1000 / 4 == o / 4 && (USER_CODE_ADDRESS + o) % 4 == o % 4
  {
    DivModUnique(USER_CODE_ADDRESS + o, 0x1000, CODE_SLOT, o);
    IndexesNamePage(USER_CODE_ADDRESS, USER_CODE_ADDRESS + o);
    DivModUnique(USER_CODE_ADDRESS + o, 4, USER_CODE_ADDRESS / 4 + o / 4, o % 4);
    hide DirIndex, TableIndex;
  }
}
