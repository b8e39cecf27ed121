/**
 Physical memory as words, and the two-level page tables stored in it.

 Directories and tables are ordinary pages of the one memory, so a directory
 that shares a table with another, or that maps itself, is visible here.
 */
module Memory {
  import opened Machine

  /** All of the 32-bit physical address space, as 32-bit words. */
  const MEM_WORDS: int := 0x4000_0000

  const MAX_FRAMES: int := 0x10_0000

  predicate Aligned(address: Word) {
    address % 0x1000 == 0
  }

  /** m with ws written at word index at. */
  function Splice(m: seq<Word>, at: nat, ws: seq<Word>): (r: seq<Word>)
    requires at + |ws| <= |m|
    ensures |r| == |m|
    ensures forall k :: at <= k < at + |ws| ==> r[k] == ws[k - at]
    ensures forall k :: 0 <= k < at || at + |ws| <= k < |m| ==> r[k] == m[k]
  {
    m[..at] + ws + m[at + |ws|..]
  }

  lemma IsSplice(m: seq<Word>, r: seq<Word>, at: nat, ws: seq<Word>)
    requires at + |ws| <= |m| && |r| == |m|
    requires forall k :: at <= k < at + |ws| ==> r[k] == ws[k - at]
    requires forall k :: 0 <= k < |m| && !(at <= k < at + |ws|) ==> r[k] == m[k]
    ensures r == Splice(m, at, ws)
  {
  }

  /** A page of zeros. */
  function Zeros(): (ws: seq<Word>)
    ensures |ws| == 1024
    ensures forall i :: 0 <= i < 1024 ==> ws[i] == 0
  {
    seq<Word>(1024, _ => 0)
  }

  /** Word k of page frame number page. */
  function Entry(m: seq<Word>, page: nat, k: nat): Word
    requires |m| == MEM_WORDS && page < MAX_FRAMES && k < 1024
  {
    m[1024 * page + k]
  }

  /** The word a page-aligned pointer reaches with index k. */
  lemma PointerIndex(pointer: Word)
    requires Aligned(pointer)
    ensures pointer / 4 == 1024 * (pointer / 0x1000) && pointer / 0x1000 < MAX_FRAMES
    ensures pointer == 0x1000 * (pointer / 0x1000)
  {
  }
}

module Paging {
  import opened Options
  import opened Machine
  import opened Memory
  import opened Pmm

  const PRESENT: Word := 1
  const USER: Word := 4
  const USER_LIMIT: Word := 0xc000_0000

  // ------------------------------------------------- entries of a table

  predicate Present(e: Word) {
    e % 2 == 1
  }

  predicate UserBit(e: Word) {
    e / 4 % 2 == 1
  }

  /** The page frame number in an entry. */
  function Frame(e: Word): (f: nat)
    ensures f < MAX_FRAMES
  {
    e / 0x1000
  }

  /** Present, writable and, for user mappings, user. */
  function FlagsFor(user: bool): Word {
    if user then 7 else 3
  }

  function MakeEntry(frame: nat, user: bool): Word
    requires frame < MAX_FRAMES
  {
    0x1000 * frame + FlagsFor(user)
  }

  lemma EntryDigits(frame: nat, user: bool)
    requires frame < MAX_FRAMES
    ensures var e := MakeEntry(frame, user); Present(e) && (UserBit(e) <==> user) && Frame(e) == frame
  {
    var e, flags := MakeEntry(frame, user), FlagsFor(user);
    DivModUnique(e, 2, 0x800 * frame + flags / 2, 1);
    DivModUnique(e, 4, 0x400 * frame + flags / 4, 3);
    DivModUnique(0x400 * frame + flags / 4, 2, 0x200 * frame, flags / 4);
    DivModUnique(e, 0x1000, frame, flags);
  }

  /** Entries are written present and writable, with the user bit for user mappings and no other flag. */
  lemma EntryFlags(frame: nat, user: bool)
    requires frame < MAX_FRAMES
    ensures MakeEntry(frame, user) % 0x1000 == if user then 1 + 2 + 4 else 1 + 2
  {
    DivModUnique(MakeEntry(frame, user), 0x1000, frame, FlagsFor(user));
  }

  function WithUser(e: Word): Word {
    if UserBit(e) || e + 4 >= 0x1_0000_0000 then e else e + 4
  }

  lemma WithUserDigits(e: Word)
    ensures UserBit(WithUser(e)) && Frame(WithUser(e)) == Frame(e) && (Present(WithUser(e)) <==> Present(e))
    ensures !UserBit(e) ==> WithUser(e) == e + 4
  {
    if !UserBit(e) {
      var q, r := e / 8, e % 8;
      LowOctal(q, r);
      LowOctal(q, r + 4);
      assert q / 0x200 < MAX_FRAMES;
      assert WithUser(e) == 8 * q + (r + 4);
    }
  }

  lemma LowOctal(q: nat, r: nat)
    requires r < 8
    ensures (8 * q + r) / 4 % 2 == r / 4 && (8 * q + r) % 2 == r % 2 && (8 * q + r) / 0x1000 == q / 0x200
    ensures q < 0x2000_0000 ==> 8 * q + r < 0x1_0000_0000
  {
    DivModUnique(8 * q + r, 4, 2 * q + r / 4, r % 4);
    DivModUnique(2 * q + r / 4, 2, q, r / 4);
    DivModUnique(8 * q + r, 2, 4 * q + r / 2, r % 2);
    DivModUnique(8 * q + r, 0x1000, q / 0x200, 8 * (q % 0x200) + r);
  }

  /** The C masks, read off the entry's digits. */
  lemma EntryBits(e: Word)
    ensures BitAnd(e, PRESENT) != 0 <==> Present(e)
    ensures BitAnd(e, 5) == 5 <==> Present(e) && UserBit(e)
    ensures BitAnd(e, 0xffff_f000) == 0x1000 * Frame(e)
    ensures BitOr(e, USER) == WithUser(e)
  {
    hide BitAnd, BitOr;
    AndOne(e);
    AndOdd(e);
    PageMask(e);
    OrUser(e);
    WithUserDigits(e);
  }

  /** Or-ing flags into a page address. */
  lemma FlagOr(frame: nat, flags: Word)
    requires frame < MAX_FRAMES && flags < 8
    ensures BitOr(0x1000 * frame, flags) == 0x1000 * frame + flags
  {
    hide BitOr, Pow2;
    Pow2Values();
    OrIsAdd(0x1000 * frame, flags, 12);
  }

  // ---------------------------------------------------------- the walk

  function DirIndex(va: Word): (k: nat)
    ensures k < 1024
  {
    va / 0x40_0000
  }

  function TableIndex(va: Word): (k: nat)
    ensures k < 1024
  {
    va / 0x1000 % 1024
  }

  lemma IndexesNamePage(va: Word, other: Word)
    ensures DirIndex(va) == DirIndex(other) && TableIndex(va) == TableIndex(other) <==> va / 0x1000 == other / 0x1000
  {
    PageOfIndexes(va);
    PageOfIndexes(other);
  }

  lemma PageOfIndexes(va: Word)
    ensures va / 0x1000 == 1024 * DirIndex(va) + TableIndex(va)
  {
    assert va / 0x40_0000 == va / 0x1000 / 1024;
  }

  /** The frame a virtual page reaches, and whether ring 3 may use it. */
  datatype Translation = Fault | To(frame: nat, user: bool)

  /** 32-bit paging with the table indexes split off the address. */
  ghost function Walk(m: seq<Word>, dir: nat, i: nat, j: nat): Translation
    requires |m| == MEM_WORDS && dir < MAX_FRAMES && i < 1024 && j < 1024
  {
    var pde := Entry(m, dir, i);
    if !Present(pde) then Fault
    else
      var pte := Entry(m, Frame(pde), j);
      if !Present(pte) then Fault else To(Frame(pte), UserBit(pde) && UserBit(pte))
  }

  ghost function Translate(m: seq<Word>, dir: nat, va: Word): Translation
    requires |m| == MEM_WORDS && dir < MAX_FRAMES
  {
    Walk(m, dir, DirIndex(va), TableIndex(va))
  }

  /** The table entry a translation ends in. */
  function LeafEntry(m: seq<Word>, dir: nat, va: Word): Word
    requires |m| == MEM_WORDS && dir < MAX_FRAMES
  {
    Entry(m, Frame(Entry(m, dir, DirIndex(va))), TableIndex(va))
  }

  /** The same page, whatever the privilege. */
  ghost predicate SameFrame(a: Translation, b: Translation) {
    (a == Fault <==> b == Fault) && (a != Fault && b != Fault ==> a.frame == b.frame)
  }

  // ------------------------------------------------------- kernel pointers

  /** With cr3 loaded (0 while paging is off), a kernel pointer to that page is an access to that page. */
  ghost predicate Reaches(m: seq<Word>, cr3: Word, page: nat)
    requires |m| == MEM_WORDS && page < MAX_FRAMES
  {
    cr3 == 0 || (var t := Walk(m, cr3 / 0x1000, page / 1024, page % 1024); t != Fault && t.frame == page)
  }

  /** The page is neither the loaded directory nor one of its tables. */
  ghost predicate OffTables(m: seq<Word>, cr3: Word, page: nat)
    requires |m| == MEM_WORDS && page < MAX_FRAMES
  {
    cr3 != 0 ==>
      && page != cr3 / 0x1000
      && forall i :: 0 <= i < 1024 && Present(Entry(m, cr3 / 0x1000, i)) ==> Frame(Entry(m, cr3 / 0x1000, i)) != page
  }

  /** Kernel stores through pointers to the page go to it and disturb no translation. */
  ghost predicate Ordinary(m: seq<Word>, cr3: Word, page: nat)
    requires |m| == MEM_WORDS && page < MAX_FRAMES
  {
    Reaches(m, cr3, page) && OffTables(m, cr3, page)
  }

  /** Only words of that page differ. */
  ghost predicate OnlyPage(m: seq<Word>, m': seq<Word>, page: nat)
    requires |m| == |m'| == MEM_WORDS && page < MAX_FRAMES
  {
    forall k :: 0 <= k < MEM_WORDS && !(1024 * page <= k < 1024 * page + 1024) ==> m'[k] == m[k]
  }

  lemma OnlyPageEntry(m: seq<Word>, m': seq<Word>, x: nat, page: nat, k: nat)
    requires |m| == |m'| == MEM_WORDS && x < MAX_FRAMES && page < MAX_FRAMES && k < 1024 && page != x
    requires OnlyPage(m, m', x)
    ensures Entry(m', page, k) == Entry(m, page, k)
  {
  }

  /** Stores to a page off the tables change no translation. */
  lemma ReachesKept(m: seq<Word>, m': seq<Word>, cr3: Word, x: nat, page: nat)
    requires |m| == |m'| == MEM_WORDS && x < MAX_FRAMES && page < MAX_FRAMES && OffTables(m, cr3, x)
    requires OnlyPage(m, m', x)
    ensures Reaches(m', cr3, page) <==> Reaches(m, cr3, page)
    ensures OffTables(m', cr3, page) <==> OffTables(m, cr3, page)
  {
    if cr3 != 0 {
      var dir := cr3 / 0x1000;
      forall i | 0 <= i < 1024 ensures Entry(m', dir, i) == Entry(m, dir, i) {
        OnlyPageEntry(m, m', x, dir, i);
      }
      var pde := Entry(m, dir, page / 1024);
      if Present(pde) {
        OnlyPageEntry(m, m', x, Frame(pde), page % 1024);
      }
      hide Present, Frame, UserBit, OnlyPage;
    }
  }

  /** A store that changes neither presence nor frame of an entry, or fills an absent one, loses no page. */
  lemma ReachesAfterEntry(m: seq<Word>, cr3: Word, at: nat, k: nat, w: Word, page: nat)
    requires |m| == MEM_WORDS && at < MAX_FRAMES && k < 1024 && page < MAX_FRAMES
    requires Present(Entry(m, at, k)) ==> Present(w) && Frame(w) == Frame(Entry(m, at, k))
    requires Reaches(m, cr3, page)
    ensures Reaches(m[1024 * at + k := w], cr3, page)
  {
    var m' := m[1024 * at + k := w];
    forall p, j | 0 <= p < MAX_FRAMES && 0 <= j < 1024
      ensures Entry(m', p, j) == if p == at && j == k then w else Entry(m, p, j)
    {
    }
    hide Present, Frame, UserBit, Entry;
  }

  // ----------------------------------------------------------- map_page_in

  /** Finding, or making from a fresh zeroed page, the table of slot i. */
  ghost function TableMade(a: Pool, m: seq<Word>, dir: nat, i: nat, user: bool): (r: (Pool, seq<Word>, Option<nat>))
    requires PoolOk(a) && |m| == MEM_WORDS && dir < MAX_FRAMES && i < 1024
    ensures PoolOk(r.0) && |r.1| == MEM_WORDS && (r.2.Some? ==> r.2.value < MAX_FRAMES)
  {
    var pde := Entry(m, dir, i);
    if Present(pde) then
      (a, if user then m[1024 * dir + i := WithUser(pde)] else m, Some(Frame(pde)))
    else if a.free == {} then (a, m, None)
    else
      var table := Least(a.free);
      (Allocated(a).0, Splice(m, 1024 * table, Zeros())[1024 * dir + i := MakeEntry(table, user)], Some(table))
  }

  /** Allocator and memory after mapping virtual page (i, j) of dir to a frame. */
  ghost function MapAt(a: Pool, m: seq<Word>, dir: nat, i: nat, j: nat, frame: nat, user: bool): (r: (Pool, seq<Word>))
    requires PoolOk(a) && |m| == MEM_WORDS && dir < MAX_FRAMES && i < 1024 && j < 1024 && frame < MAX_FRAMES
    ensures PoolOk(r.0) && |r.1| == MEM_WORDS
  {
    var (b, m1, table) := TableMade(a, m, dir, i, user);
    if table == None then (b, m1) else (b, m1[1024 * table.value + j := MakeEntry(frame, user)])
  }

  ghost function MapIn(a: Pool, m: seq<Word>, dir: nat, va: Word, pa: Word, user: bool): (r: (Pool, seq<Word>))
    requires PoolOk(a) && |m| == MEM_WORDS && dir < MAX_FRAMES
    ensures PoolOk(r.0) && |r.1| == MEM_WORDS
  {
    MapAt(a, m, dir, DirIndex(va), TableIndex(va), Frame(pa), user)
  }

  /** The table in slot i, if any, is an allocated page other than the directory. */
  ghost predicate SlotOwned(a: Pool, m: seq<Word>, dir: nat, i: nat)
    requires |m| == MEM_WORDS && dir < MAX_FRAMES && i < 1024
  {
    Present(Entry(m, dir, i)) ==> Frame(Entry(m, dir, i)) != dir && Frame(Entry(m, dir, i)) !in a.free
  }

  /** Tables of the ordinary slots are owned and pairwise distinct. */
  ghost predicate TablesDistinct(a: Pool, m: seq<Word>, dir: nat)
    requires |m| == MEM_WORDS && dir < MAX_FRAMES
  {
    && (forall i :: 0 <= i < 1023 ==> SlotOwned(a, m, dir, i))
    && (forall i, j :: 0 <= i < 1023 && 0 <= j < 1023 && i != j
                       && Present(Entry(m, dir, i)) && Present(Entry(m, dir, j)) ==>
          Frame(Entry(m, dir, i)) != Frame(Entry(m, dir, j)))
  }

  /** Every pointer map_page_in follows for slot i leads to its page. */
  ghost predicate MapServed(a: Pool, m: seq<Word>, cr3: Word, dir: nat, i: nat)
    requires |m| == MEM_WORDS && dir < MAX_FRAMES && i < 1024 && PoolOk(a)
  {
    && Reaches(m, cr3, dir)
    && if Present(Entry(m, dir, i)) then Reaches(m, cr3, Frame(Entry(m, dir, i)))
       else a.free != {} ==> Ordinary(m, cr3, Least(a.free)) && Least(a.free) != dir
  }

  /** The words a mapping may write. */
  lemma MapAtWrites(a: Pool, m: seq<Word>, dir: nat, i: nat, j: nat, frame: nat, user: bool, page: nat, k: nat)
    requires PoolOk(a) && |m| == MEM_WORDS && dir < MAX_FRAMES && i < 1024 && j < 1024 && frame < MAX_FRAMES
    requires page < MAX_FRAMES && k < 1024 && (page, k) != (dir, i)
    requires if Present(Entry(m, dir, i)) then (page, k) != (Frame(Entry(m, dir, i)), j) else page !in a.free
    ensures Entry(MapAt(a, m, dir, i, j, frame, user).1, page, k) == Entry(m, page, k)
  {
  }

  /** The directory entry and the table entry after a mapping into a present slot. */
  lemma MapAtPresent(a: Pool, m: seq<Word>, dir: nat, i: nat, j: nat, frame: nat, user: bool)
    requires PoolOk(a) && |m| == MEM_WORDS && dir < MAX_FRAMES && i < 1024 && j < 1024 && frame < MAX_FRAMES
    requires Present(Entry(m, dir, i)) && Frame(Entry(m, dir, i)) != dir
    ensures var (a', m') := MapAt(a, m, dir, i, j, frame, user);
            var pde, pde' := Entry(m, dir, i), Entry(m', dir, i);
            && a' == a && Present(pde') && Frame(pde') == Frame(pde) && UserBit(pde') == (user || UserBit(pde))
            && pde' == (if user then WithUser(pde) else pde)
            && Entry(m', Frame(pde), j) == MakeEntry(frame, user)
  {
    WithUserDigits(Entry(m, dir, i));
  }

  /** The same after a mapping into an empty slot. */
  lemma MapAtEmpty(a: Pool, m: seq<Word>, dir: nat, i: nat, j: nat, frame: nat, user: bool)
    requires PoolOk(a) && |m| == MEM_WORDS && dir < MAX_FRAMES && i < 1024 && j < 1024 && frame < MAX_FRAMES
    requires !Present(Entry(m, dir, i)) && dir !in a.free && a.free != {}
    ensures var (a', m') := MapAt(a, m, dir, i, j, frame, user);
            var table := Least(a.free);
            && a' == Allocated(a).0 && Entry(m', dir, i) == MakeEntry(table, user)
            && Entry(m', table, j) == MakeEntry(frame, user)
            && forall k :: 0 <= k < 1024 && k != j ==> Entry(m', table, k) == 0
  {
  }

  /** The loaded directory has the window; it, its tables and dir are not free. */
  ghost predicate WindowLoaded(a: Pool, m: seq<Word>, cr3: Word, tables: nat, dir: nat)
    requires |m| == MEM_WORDS && dir < MAX_FRAMES
  {
    && tables + 4 <= 4096 && 0 < cr3 / 0x1000 < 4096 && HasWindow(m, cr3 / 0x1000, tables)
    && cr3 / 0x1000 !in a.free && dir !in a.free && forall p :: tables <= p < tables + 4 ==> p !in a.free
  }

  /**
   map_page_in through a reached directory: without a table and without a page
   nothing changes; otherwise the walk of va gives the requested frame and
   mode, unless the table, old or fresh, is a page the kernel's pointer does
   not lead to, and exactly then an access faults or goes astray.
   */
  lemma MapTakesEffect(a: Pool, m: seq<Word>, cr3: Word, tables: nat, dir: nat, va: Word, pa: Word, user: bool)
    requires PoolOk(a) && |m| == MEM_WORDS && dir < MAX_FRAMES && WindowLoaded(a, m, cr3, tables, dir)
    requires InOwnSlot(m, tables, dir) && SlotOwned(a, m, dir, DirIndex(va))
    ensures var (a', m') := MapIn(a, m, dir, va, pa, user);
            var pde := Entry(m, dir, DirIndex(va));
            if !Present(pde) && a.free == {} then MapServed(a, m, cr3, dir, DirIndex(va)) && a' == a && m' == m
            else
              && Translate(m', dir, va) == To(Frame(pa), user)
              && LeafEntry(m', dir, va) == 0x1000 * (pa / 0x1000) + (if user then 7 else 3)
              && (MapServed(a, m, cr3, dir, DirIndex(va))
                  <==> InOwnSlot(m, tables, if Present(pde) then Frame(pde) else Least(a.free)))
  {
    MapServedIff(a, m, cr3, tables, dir, DirIndex(va));
    hide HasWindow, MapServed, InOwnSlot;
    EntryDigits(Frame(pa), user);
    if Present(Entry(m, dir, DirIndex(va))) {
      MapAtPresent(a, m, dir, DirIndex(va), TableIndex(va), Frame(pa), user);
    } else if a.free != {} {
      EntryDigits(Least(a.free), user);
      MapAtEmpty(a, m, dir, DirIndex(va), TableIndex(va), Frame(pa), user);
    }
  }

  /** Every other page below the recursive slot keeps its frame. */
  lemma MapLeavesOtherPages(a: Pool, m: seq<Word>, dir: nat, va: Word, pa: Word, user: bool, other: Word)
    requires PoolOk(a) && |m| == MEM_WORDS && dir < MAX_FRAMES && dir !in a.free
    requires TablesDistinct(a, m, dir)
    requires va < 0xffc0_0000 && other < 0xffc0_0000 && va / 0x1000 != other / 0x1000
    ensures SameFrame(Translate(MapIn(a, m, dir, va, pa, user).1, dir, other), Translate(m, dir, other))
  {
    IndexesNamePage(va, other);
    var i, i2 := DirIndex(va), DirIndex(other);
    assert i < 1023 && i2 < 1023;
    MapAtLeavesOthers(a, m, dir, i, TableIndex(va), Frame(pa), user, i2, TableIndex(other));
  }

  lemma MapAtLeavesOthers(a: Pool, m: seq<Word>, dir: nat, i: nat, j: nat, frame: nat, user: bool, i2: nat, j2: nat)
    requires PoolOk(a) && |m| == MEM_WORDS && dir < MAX_FRAMES && dir !in a.free && frame < MAX_FRAMES
    requires TablesDistinct(a, m, dir)
    requires i < 1023 && i2 < 1023 && j < 1024 && j2 < 1024 && (i, j) != (i2, j2)
    ensures SameFrame(Walk(MapAt(a, m, dir, i, j, frame, user).1, dir, i2, j2), Walk(m, dir, i2, j2))
  {
    hide MapAt;
    var pde, pde2 := Entry(m, dir, i), Entry(m, dir, i2);
    assert SlotOwned(a, m, dir, i) && SlotOwned(a, m, dir, i2);
    if Present(pde) {
      MapAtPresent(a, m, dir, i, j, frame, user);
    } else if a.free != {} {
      EntryDigits(frame, user);
      EntryDigits(Least(a.free), user);
      MapAtEmpty(a, m, dir, i, j, frame, user);
    } else {
      MapWithoutPage(a, m, dir, i, j, frame, user);
      return;
    }
    if i2 != i {
      MapAtWrites(a, m, dir, i, j, frame, user, dir, i2);
    }
    if Present(pde2) && (Present(pde) || i2 != i) {
      MapAtWrites(a, m, dir, i, j, frame, user, Frame(pde2), j2);
    }
  }

  lemma MapWithoutPage(a: Pool, m: seq<Word>, dir: nat, i: nat, j: nat, frame: nat, user: bool)
    requires PoolOk(a) && |m| == MEM_WORDS && dir < MAX_FRAMES && i < 1024 && j < 1024 && frame < MAX_FRAMES
    requires !Present(Entry(m, dir, i)) && a.free == {}
    ensures MapAt(a, m, dir, i, j, frame, user) == (a, m)
  {
  }

  /**
   A mapping in an empty slot is private: its table is a fresh page, so no
   other directory sees any change.
   */
  lemma MapInEmptySlotIsPrivate(a: Pool, m: seq<Word>, dir: nat, va: Word, pa: Word, user: bool, dir2: nat, other: Word)
    requires PoolOk(a) && |m| == MEM_WORDS && dir < MAX_FRAMES && dir2 < MAX_FRAMES && dir2 != dir
    requires dir !in a.free && dir2 !in a.free
    requires !Present(Entry(m, dir, DirIndex(va)))
    requires Present(Entry(m, dir2, DirIndex(other))) ==>
               Frame(Entry(m, dir2, DirIndex(other))) != dir && Frame(Entry(m, dir2, DirIndex(other))) !in a.free
    ensures Translate(MapIn(a, m, dir, va, pa, user).1, dir2, other) == Translate(m, dir2, other)
  {
    hide MapAt;
    var i, j := DirIndex(va), TableIndex(va);
    var pde := Entry(m, dir2, DirIndex(other));
    MapAtWrites(a, m, dir, i, j, Frame(pa), user, dir2, DirIndex(other));
    if Present(pde) {
      MapAtWrites(a, m, dir, i, j, Frame(pa), user, Frame(pde), TableIndex(other));
    }
  }

  /** A mapping in a slot whose table is shared shows through every directory that shares it. */
  lemma MapInSharedSlotIsVisible(a: Pool, m: seq<Word>, dir: nat, va: Word, pa: Word, user: bool, dir2: nat)
    requires PoolOk(a) && |m| == MEM_WORDS && dir < MAX_FRAMES && dir2 < MAX_FRAMES && dir2 != dir
    requires Present(Entry(m, dir, DirIndex(va))) && Present(Entry(m, dir2, DirIndex(va)))
    requires Frame(Entry(m, dir, DirIndex(va))) == Frame(Entry(m, dir2, DirIndex(va)))
    requires Frame(Entry(m, dir, DirIndex(va))) != dir && Frame(Entry(m, dir, DirIndex(va))) != dir2
    ensures Translate(MapIn(a, m, dir, va, pa, user).1, dir2, va)
            == To(Frame(pa), user && UserBit(Entry(m, dir2, DirIndex(va))))
  {
    hide MapAt;
    var i, j := DirIndex(va), TableIndex(va);
    EntryDigits(Frame(pa), user);
    MapAtPresent(a, m, dir, i, j, Frame(pa), user);
    MapAtWrites(a, m, dir, i, j, Frame(pa), user, dir2, i);
  }

  // ------------------------------------------------- create_page_directory

  function DirectoryWord(m: seq<Word>, kernel: nat, page: nat, i: nat): Word
    requires |m| == MEM_WORDS && kernel < MAX_FRAMES && page < MAX_FRAMES && i < 1024
  {
    if i == 1023 then MakeEntry(page, false) else Entry(m, kernel, i)
  }

  /** The words of a copy of the kernel directory stored in frame page. */
  function DirectoryCopy(m: seq<Word>, kernel: nat, page: nat): (ws: seq<Word>)
    requires |m| == MEM_WORDS && kernel < MAX_FRAMES && page < MAX_FRAMES
    ensures |ws| == 1024
    ensures forall i :: 0 <= i < 1024 ==> ws[i] == DirectoryWord(m, kernel, page, i)
  {
    seq<Word>(1024, i requires 0 <= i < 1024 => DirectoryWord(m, kernel, page, i))
  }

  /** Allocator, memory and new directory address (0 when no page is left). */
  ghost function NewDirectory(a: Pool, m: seq<Word>, kernel: nat): (r: (Pool, seq<Word>, Word))
    requires PoolOk(a) && |m| == MEM_WORDS && kernel < MAX_FRAMES
    ensures PoolOk(r.0) && |r.1| == MEM_WORDS
    ensures if r.2 == 0 then a.free == {} && r == (a, m, 0) else a.free != {}
  {
    if a.free == {} then (a, m, 0)
    else
      var page := Least(a.free);
      (Allocated(a).0, Splice(m, 1024 * page, DirectoryCopy(m, kernel, page)), Allocated(a).1)
  }

  /** Every pointer create_page_directory follows leads to its page. */
  ghost predicate DirectoryServed(a: Pool, m: seq<Word>, cr3: Word, kernel: nat)
    requires PoolOk(a) && |m| == MEM_WORDS && kernel < MAX_FRAMES
  {
    a.free != {} ==> Reaches(m, cr3, kernel) && Ordinary(m, cr3, Least(a.free))
  }

  /**
   create_page_directory on a page the kernel's pointer leads to, and on no
   other: the new directory translates every address below the recursive slot
   as the kernel's does.
   */
  lemma NewDirectoryTranslates(a: Pool, m: seq<Word>, cr3: Word, tables: nat, kernel: nat, va: Word)
    requires PoolOk(a) && a.free != {} && |m| == MEM_WORDS && kernel < MAX_FRAMES && va < 0xffc0_0000
    requires WindowLoaded(a, m, cr3, tables, kernel) && InOwnSlot(m, tables, kernel)
    requires Present(Entry(m, kernel, DirIndex(va))) ==> Frame(Entry(m, kernel, DirIndex(va))) !in a.free
    ensures DirectoryServed(a, m, cr3, kernel) <==> InOwnSlot(m, tables, Least(a.free))
    ensures var (b, m', dir) := NewDirectory(a, m, kernel);
            dir == 0x1000 * Least(a.free) != 0 && Translate(m', dir / 0x1000, va) == Translate(m, kernel, va)
  {
    DirectoryServedIff(a, m, cr3, tables, kernel);
    var dir := Least(a.free);
    var m' := NewDirectory(a, m, kernel).1;
    hide MakeEntry, Least, IsLeast, Frame, TableIndex, HasWindow, DirectoryServed, InOwnSlot;
    var i := DirIndex(va);
    assert NewDirectory(a, m, kernel).2 / 0x1000 == dir;
    assert i != 1023 && Entry(m', dir, i) == DirectoryWord(m, kernel, dir, i) == Entry(m, kernel, i);
    if Present(Entry(m, kernel, i)) {
      var table := Frame(Entry(m, kernel, i));
      assert table != dir;
      assert Entry(m', table, TableIndex(va)) == Entry(m, table, TableIndex(va));
    }
  }

  // ----------------------------------------------------------- init_paging

  /** Where the kernel's own directory and its four identity tables lie. */
  predicate TablesPlaced(kernel: nat, tables: nat) {
    && kernel < MAX_FRAMES && tables + 4 <= MAX_FRAMES
    && (kernel < tables || tables + 4 <= kernel)
  }

  /** Word i of the kernel directory as init_paging leaves it. */
  function KernelEntry(kernel: nat, tables: nat, i: nat): Word
    requires TablesPlaced(kernel, tables)
  {
    if i < 4 then MakeEntry(tables + i, false)
    else if i == 1023 then MakeEntry(kernel, false)
    else 0
  }

  /** The words of identity table t. */
  function IdentityTable(t: nat): (ws: seq<Word>)
    requires t < 4
    ensures |ws| == 1024
    ensures forall j :: 0 <= j < 1024 ==> ws[j] == MakeEntry(1024 * t + j, false)
  {
    seq<Word>(1024, j requires 0 <= j < 1024 => MakeEntry(1024 * t + j, false))
  }

  ghost predicate IsIdentityTable(m: seq<Word>, tables: nat, t: nat)
    requires |m| == MEM_WORDS && t < 4 && tables + 4 <= MAX_FRAMES
  {
    forall j :: 0 <= j < 1024 ==> Entry(m, tables + t, j) == IdentityTable(t)[j]
  }

  ghost predicate KernelMapped(m: seq<Word>, kernel: nat, tables: nat)
    requires |m| == MEM_WORDS && TablesPlaced(kernel, tables)
  {
    && (forall i :: 0 <= i < 1024 ==> Entry(m, kernel, i) == KernelEntry(kernel, tables, i))
    && (forall t :: 0 <= t < 4 ==> IsIdentityTable(m, tables, t))
  }

  /** Memory after init_paging has filled t tables and their directory slots. */
  ghost function TablesFilled(m: seq<Word>, kernel: nat, tables: nat, t: nat): (r: seq<Word>)
    requires |m| == MEM_WORDS && TablesPlaced(kernel, tables) && t <= 4
    ensures |r| == MEM_WORDS
  {
    if t == 0 then Splice(m, 1024 * kernel, Zeros())
    else
      Splice(TablesFilled(m, kernel, tables, t - 1), 1024 * (tables + t - 1), IdentityTable(t - 1))
        [1024 * kernel + t - 1 := MakeEntry(tables + t - 1, false)]
  }

  lemma NoTablesYet(m: seq<Word>, kernel: nat, tables: nat)
    requires |m| == MEM_WORDS && TablesPlaced(kernel, tables)
    ensures TablesFilled(m, kernel, tables, 0) == Splice(m, 1024 * kernel, Zeros())
  {
  }

  lemma TablesFilledStep(m: seq<Word>, kernel: nat, tables: nat, t: nat)
    requires |m| == MEM_WORDS && TablesPlaced(kernel, tables) && t < 4
    ensures TablesFilled(m, kernel, tables, t + 1)
            == Splice(TablesFilled(m, kernel, tables, t), 1024 * (tables + t), IdentityTable(t))
                 [1024 * kernel + t := 0x1000 * (tables + t) + 3]
  {
  }

  ghost function PagingStarted(m: seq<Word>, kernel: nat, tables: nat): (r: seq<Word>)
    requires |m| == MEM_WORDS && TablesPlaced(kernel, tables)
    ensures |r| == MEM_WORDS
  {
    TablesFilled(m, kernel, tables, 4)[1024 * kernel + 1023 := MakeEntry(kernel, false)]
  }

  /** r is m with t identity tables in place, entered in an otherwise empty directory. */
  ghost predicate HasTables(m: seq<Word>, r: seq<Word>, kernel: nat, tables: nat, t: nat)
    requires |m| == |r| == MEM_WORDS && TablesPlaced(kernel, tables) && t <= 4
  {
    && (forall i :: 0 <= i < 1024 ==> Entry(r, kernel, i) == if i < t then MakeEntry(tables + i, false) else 0)
    && (forall u :: 0 <= u < t ==> IsIdentityTable(r, tables, u))
    && SameOutside(m, r, kernel, tables)
  }

  ghost predicate SameOutside(m: seq<Word>, r: seq<Word>, kernel: nat, tables: nat)
    requires |m| == |r| == MEM_WORDS && TablesPlaced(kernel, tables)
  {
    forall p, k :: 0 <= p < MAX_FRAMES && 0 <= k < 1024 && p != kernel && !(tables <= p < tables + 4) ==>
      Entry(r, p, k) == Entry(m, p, k)
  }

  lemma {:induction false} TablesFilledShape(m: seq<Word>, kernel: nat, tables: nat, t: nat)
    requires |m| == MEM_WORDS && TablesPlaced(kernel, tables) && t <= 4
    ensures HasTables(m, TablesFilled(m, kernel, tables, t), kernel, tables, t)
  {
    if t > 0 {
      TablesFilledShape(m, kernel, tables, t - 1);
      TableAdded(m, TablesFilled(m, kernel, tables, t - 1), kernel, tables, t);
    }
  }

  lemma TableAdded(m: seq<Word>, before: seq<Word>, kernel: nat, tables: nat, t: nat)
    requires |m| == |before| == MEM_WORDS && TablesPlaced(kernel, tables) && 1 <= t <= 4
    requires HasTables(m, before, kernel, tables, t - 1)
    ensures var after := Splice(before, 1024 * (tables + t - 1), IdentityTable(t - 1))
                         [1024 * kernel + t - 1 := MakeEntry(tables + t - 1, false)];
            HasTables(m, after, kernel, tables, t)
  {
    hide MakeEntry, IdentityTable;
    var after := Splice(before, 1024 * (tables + t - 1), IdentityTable(t - 1))
      [1024 * kernel + t - 1 := MakeEntry(tables + t - 1, false)];
    forall u | 0 <= u < t ensures IsIdentityTable(after, tables, u) {
      assert u < t - 1 ==> IsIdentityTable(before, tables, u);
      forall j | 0 <= j < 1024 ensures Entry(after, tables + u, j) == IdentityTable(u)[j] {
        assert u < t - 1 ==> Entry(after, tables + u, j) == Entry(before, tables + u, j);
      }
    }
    forall i | 0 <= i < 1024
      ensures Entry(after, kernel, i) == if i < t then MakeEntry(tables + i, false) else 0
    {
      assert i != t - 1 ==> Entry(after, kernel, i) == Entry(before, kernel, i);
    }
    forall p, k | 0 <= p < MAX_FRAMES && 0 <= k < 1024 && p != kernel && !(tables <= p < tables + 4)
      ensures Entry(after, p, k) == Entry(m, p, k)
    {
      assert Entry(after, p, k) == Entry(before, p, k);
    }
  }

  /** init_paging establishes the kernel mapping and touches nothing else. */
  lemma PagingStartsMapped(m: seq<Word>, kernel: nat, tables: nat)
    requires |m| == MEM_WORDS && TablesPlaced(kernel, tables)
    ensures KernelMapped(PagingStarted(m, kernel, tables), kernel, tables)
    ensures SameOutside(m, PagingStarted(m, kernel, tables), kernel, tables)
  {
    hide MakeEntry;
    TablesFilledShape(m, kernel, tables, 4);
    var before, after := TablesFilled(m, kernel, tables, 4), PagingStarted(m, kernel, tables);
    forall t | 0 <= t < 4 ensures IsIdentityTable(after, tables, t) {
      assert IsIdentityTable(before, tables, t);
      forall j | 0 <= j < 1024 ensures Entry(after, tables + t, j) == IdentityTable(t)[j] {
        assert Entry(after, tables + t, j) == Entry(before, tables + t, j);
      }
    }
    forall i | 0 <= i < 1024 ensures Entry(after, kernel, i) == KernelEntry(kernel, tables, i) {
      assert i != 1023 ==> Entry(after, kernel, i) == Entry(before, kernel, i);
    }
    forall p, k | 0 <= p < MAX_FRAMES && 0 <= k < 1024 && p != kernel && !(tables <= p < tables + 4)
      ensures Entry(after, p, k) == Entry(m, p, k)
    {
      assert Entry(after, p, k) == Entry(before, p, k);
    }
  }

  /**
   The kernel mapping takes every address below 16 MiB to itself, for ring 0
   only, and no other below the recursive slot.
   */
  lemma KernelMapIsIdentity(m: seq<Word>, kernel: nat, tables: nat, va: Word)
    requires |m| == MEM_WORDS && TablesPlaced(kernel, tables) && KernelMapped(m, kernel, tables) && va < 0xffc0_0000
    ensures Translate(m, kernel, va) == if va < 0x100_0000 then To(va / 0x1000, false) else Fault
  {
    hide MakeEntry;
    var i, j := DirIndex(va), TableIndex(va);
    PageOfIndexes(va);
    assert Entry(m, kernel, i) == KernelEntry(kernel, tables, i);
    if i < 4 {
      EntryDigits(tables + i, false);
      EntryDigits(1024 * i + j, false);
      assert IsIdentityTable(m, tables, i) && Entry(m, tables + i, j) == IdentityTable(i)[j];
    }
  }

  // ------------------------------------------------- the identity window

  /** A directory with four window tables, itself in the last slot and nothing else. */
  ghost predicate HasWindow(m: seq<Word>, dir: nat, tables: nat)
    requires |m| == MEM_WORDS && dir < MAX_FRAMES && tables + 4 <= MAX_FRAMES
  {
    && (forall i :: 0 <= i < 4 ==> Present(Entry(m, dir, i)) && Frame(Entry(m, dir, i)) == tables + i)
    && (forall i :: 4 <= i < 1023 ==> !Present(Entry(m, dir, i)))
    && Present(Entry(m, dir, 1023)) && Frame(Entry(m, dir, 1023)) == dir
    && (forall t, j :: tables <= t < tables + 4 && 0 <= j < 1024 ==> Present(Entry(m, t, j)))
  }

  /** The page a window slot shows. */
  function Shown(m: seq<Word>, tables: nat, page: nat): nat
    requires |m| == MEM_WORDS && tables + 4 <= MAX_FRAMES && page < 4096
  {
    Frame(Entry(m, tables + page / 1024, page % 1024))
  }

  /** The page lies in the first 16 MiB and its window slot shows it. */
  ghost predicate InOwnSlot(m: seq<Word>, tables: nat, page: nat)
    requires |m| == MEM_WORDS && tables + 4 <= MAX_FRAMES
  {
    page < 4096 && Shown(m, tables, page) == page
  }

  /** Exactly the pages of the first 16 MiB that their own window slot shows are reached. */
  lemma ReachesIff(m: seq<Word>, cr3: Word, tables: nat, page: nat)
    requires |m| == MEM_WORDS && tables + 4 <= 4096 && 0 < cr3 / 0x1000 < 4096 && page < MAX_FRAMES
    requires HasWindow(m, cr3 / 0x1000, tables)
    ensures Reaches(m, cr3, page) <==> InOwnSlot(m, tables, page)
    ensures OffTables(m, cr3, page) <==> page != cr3 / 0x1000 && !(tables <= page < tables + 4)
  {
    var dir, i := cr3 / 0x1000, page / 1024;
    hide Present, Frame, Entry, UserBit;
    forall k: nat | k < 4 ensures Present(Entry(m, dir, k)) && Frame(Entry(m, dir, k)) == tables + k {}
    if tables <= page < tables + 4 {
      assert Frame(Entry(m, dir, page - tables)) == page;
    }
    if page < 4096 {
      assert Present(Entry(m, tables + i, page % 1024));
    } else if i == 1023 {
      RecursiveSlot(m, dir, tables, page % 1024);
    } else {
      assert !Present(Entry(m, dir, i));
    }
  }

  /** Through the last slot a directory shows its tables and itself, never a page at its own address. */
  lemma RecursiveSlot(m: seq<Word>, dir: nat, tables: nat, k: nat)
    requires |m| == MEM_WORDS && dir < 4096 && tables + 4 <= 4096 && k < 1024 && HasWindow(m, dir, tables)
    ensures var t := Walk(m, dir, 1023, k); t == Fault || t.frame < 4096
  {
  }

  /** With the window loaded, map_page_in faults or goes astray exactly on a table page it does not show. */
  lemma MapServedIff(a: Pool, m: seq<Word>, cr3: Word, tables: nat, dir: nat, i: nat)
    requires PoolOk(a) && |m| == MEM_WORDS && tables + 4 <= 4096 && 0 < cr3 / 0x1000 < 4096 && dir < MAX_FRAMES
    requires i < 1024
    requires HasWindow(m, cr3 / 0x1000, tables)
    requires cr3 / 0x1000 !in a.free && dir !in a.free && forall p :: tables <= p < tables + 4 ==> p !in a.free
    ensures MapServed(a, m, cr3, dir, i) <==>
            && InOwnSlot(m, tables, dir)
            && if Present(Entry(m, dir, i)) then InOwnSlot(m, tables, Frame(Entry(m, dir, i)))
               else a.free == {} || InOwnSlot(m, tables, Least(a.free))
  {
    hide HasWindow, Reaches, OffTables, InOwnSlot;
    ReachesIff(m, cr3, tables, dir);
    ReachesIff(m, cr3, tables, Frame(Entry(m, dir, i)));
    if a.free != {} {
      assert Least(a.free) in a.free;
      ReachesIff(m, cr3, tables, Least(a.free));
    }
  }

  /** The same for create_page_directory and the page it takes. */
  lemma DirectoryServedIff(a: Pool, m: seq<Word>, cr3: Word, tables: nat, kernel: nat)
    requires PoolOk(a) && |m| == MEM_WORDS && tables + 4 <= 4096 && 0 < cr3 / 0x1000 < 4096 && kernel < MAX_FRAMES
    requires HasWindow(m, cr3 / 0x1000, tables) && InOwnSlot(m, tables, kernel)
    requires cr3 / 0x1000 !in a.free && forall p :: tables <= p < tables + 4 ==> p !in a.free
    ensures DirectoryServed(a, m, cr3, kernel) <==> a.free == {} || InOwnSlot(m, tables, Least(a.free))
  {
    hide HasWindow, Reaches, OffTables, InOwnSlot;
    ReachesIff(m, cr3, tables, kernel);
    if a.free != {} {
      assert Least(a.free) in a.free;
      ReachesIff(m, cr3, tables, Least(a.free));
    }
  }

  // ------------------------------------------------------ user_range_valid

  /** Ring 3 may reach the page of address: both levels have PRESENT and USER. */
  ghost predicate UserReaches(m: seq<Word>, dir: nat, address: Word)
    requires |m| == MEM_WORDS && dir < MAX_FRAMES
  {
    var t := Translate(m, dir, address);
    t != Fault && t.user
  }

  ghost predicate UserByte(m: seq<Word>, dir: nat, x: int)
    requires |m| == MEM_WORDS && dir < MAX_FRAMES
  {
    0 <= x < 0xc000_0000 && UserReaches(m, dir, x)
  }

  lemma ReachesOnPage(m: seq<Word>, dir: nat, page: Word, x: Word)
    requires |m| == MEM_WORDS && dir < MAX_FRAMES && Aligned(page) && page <= x < page + 0x1000
    ensures UserReaches(m, dir, x) <==> UserReaches(m, dir, page)
  {
    DivModUnique(x, 0x1000, page / 0x1000, x - page);
    IndexesNamePage(page, x);
  }

  lemma PageReaches(m: seq<Word>, dir: nat, page: Word)
    requires |m| == MEM_WORDS && dir < MAX_FRAMES && Aligned(page)
    ensures forall x: Word :: page <= x < page + 0x1000 ==> (UserReaches(m, dir, x) <==> UserReaches(m, dir, page))
  {
    forall x: Word | page <= x < page + 0x1000 ensures UserReaches(m, dir, x) <==> UserReaches(m, dir, page) {
      ReachesOnPage(m, dir, page, x);
    }
  }

  /** The directory and the tables user_page_present may look into are reached. */
  ghost predicate Walkable(m: seq<Word>, cr3: Word, dir: nat)
    requires |m| == MEM_WORDS && dir < MAX_FRAMES
  {
    && Reaches(m, cr3, dir)
    && forall i :: 0 <= i < 1024 && Present(Entry(m, dir, i)) && UserBit(Entry(m, dir, i)) ==>
         Reaches(m, cr3, Frame(Entry(m, dir, i)))
  }

  // ----------------------------------------------------- pointer arithmetic

  lemma WordOfPage(address: Word)
    requires address % 4 == 0
    ensures address / 4 == 1024 * (address / 0x1000) + address % 0x1000 / 4 && address / 0x1000 < MAX_FRAMES
  {
    var q, r := address / 0x1000, address % 0x1000;
    DivModUnique(r, 4, r / 4, r % 4);
    assert address == 4 * (1024 * q + r / 4) + r % 4;
  }

  lemma IndexesOfPage(address: Word)
    ensures address / 0x40_0000 == address / 0x1000 / 1024 && address / 0x40_0000 < 1024
  {
  }

  lemma ElementAddress(pointer: Word, k: nat)
    requires Aligned(pointer) && k < 1024
    ensures var address := pointer + 4 * k;
            && address < 0x1_0000_0000 && address % 4 == 0 && address / 0x1000 == pointer / 0x1000
            && address / 4 == 1024 * (pointer / 0x1000) + k == pointer / 4 + k
  {
    PointerIndex(pointer);
    DivModUnique(pointer + 4 * k, 0x1000, pointer / 0x1000, 4 * k);
    DivModUnique(pointer + 4 * k, 4, 1024 * (pointer / 0x1000) + k, 0);
  }

  /** Masking an address gives the start of its page. */
  lemma PageStart(address: Word)
    ensures var page := BitAnd(address, 0xffff_f000); Aligned(page) && page <= address < page + 0x1000
  {
    PageMask(address);
    hide BitAnd;
  }

  lemma PagesOrdered(p: Word, q: Word)
    requires Aligned(p) && Aligned(q) && p < q + 0x1000
    ensures p <= q
  {
  }

  lemma NextPage(page: Word, last: Word)
    requires Aligned(page) && Aligned(last) && page < last
    ensures page + 0x1000 <= last && Wrap32(page + 0x1000) == page + 0x1000 && Aligned(Wrap32(page + 0x1000))
  {
    WrapSmall(page + 0x1000);
  }

  lemma TablePointer(tables: Word, t: nat)
    requires Aligned(tables) && t < 4 && tables / 0x1000 + 4 <= MAX_FRAMES
    ensures tables + 4096 * t < 0x1_0000_0000 && Aligned(tables + 4096 * t)
    ensures (tables + 4096 * t) / 0x1000 == tables / 0x1000 + t
  {
    DivModUnique(tables + 4096 * t, 0x1000, tables / 0x1000 + t, 0);
  }

  lemma NoPagingReaches(m: seq<Word>, page: nat)
    requires |m| == MEM_WORDS && page < MAX_FRAMES
    ensures Reaches(m, 0, page)
  {
  }

  /** Copying page kernel to page x word by word leaves the words still to be copied, even onto itself. */
  lemma SourceIntact(m: seq<Word>, m': seq<Word>, x: nat, kernel: nat, i: nat)
    requires |m| == |m'| == MEM_WORDS && x < MAX_FRAMES && kernel < MAX_FRAMES && i < 1024
    requires forall k :: 0 <= k < MEM_WORDS && !(1024 * x <= k < 1024 * x + i) ==> m'[k] == m[k]
    ensures m'[1024 * kernel + i] == m[1024 * kernel + i]
  {
  }

  /** A page that only its own stores have changed is still reached. */
  lemma StillOrdinary(m: seq<Word>, m': seq<Word>, cr3: Word, page: nat)
    requires |m| == |m'| == MEM_WORDS && page < MAX_FRAMES && Ordinary(m, cr3, page) && OnlyPage(m, m', page)
    ensures Ordinary(m', cr3, page) && Reaches(m', cr3, page)
  {
    hide OnlyPage, Reaches, OffTables;
    ReachesKept(m, m', cr3, page, page);
  }

  lemma StillReached(m: seq<Word>, m': seq<Word>, cr3: Word, x: nat, page: nat)
    requires |m| == |m'| == MEM_WORDS && page < MAX_FRAMES && x < MAX_FRAMES
    requires Ordinary(m, cr3, x) && Reaches(m, cr3, page) && OnlyPage(m, m', x)
    ensures Reaches(m', cr3, page)
  {
    hide OnlyPage, Reaches, OffTables;
    ReachesKept(m, m', cr3, x, page);
  }

  // ------------------------------------------------------------- the class

  class PageTables {
    const ram: array<Word>
    const pmm: PageAllocator
    /** Addresses of page_directory and of identity_tables. */
    const pageDirectory: Word
    const identityTables: Word
    /** The loaded directory; 0 until paging is enabled. */
    var cr3: Word

    constructor (ram: array<Word>, pmm: PageAllocator, pageDirectory: Word, identityTables: Word)
      ensures this.ram == ram && this.pmm == pmm && cr3 == 0
      ensures this.pageDirectory == pageDirectory && this.identityTables == identityTables
    {
      this.ram, this.pmm := ram, pmm;
      this.pageDirectory, this.identityTables, cr3 := pageDirectory, identityTables, 0;
    }

    ghost predicate Valid()
      reads this, pmm, pmm.bitmap
    {
      && ram.Length == MEM_WORDS && pmm.Valid()
      && Aligned(pageDirectory) && Aligned(identityTables) && Aligned(cr3)
      && TablesPlaced(pageDirectory / 0x1000, identityTables / 0x1000)
    }

    // ---------------------------------------------- access through pointers

    /** The word of physical memory at a pointer: the walk of the loaded directory. */
    method Locate(address: Word) returns (index: nat)
      requires ram.Length == MEM_WORDS && Aligned(cr3) && address % 4 == 0 && Reaches(ram[..], cr3, address / 0x1000)
      ensures index == address / 4 < MEM_WORDS
    {
      WordOfPage(address);
      if cr3 == 0 {
        return address / 4;
      }
      PointerIndex(cr3);
      IndexesOfPage(address);
      var pde := ram[cr3 / 4 + address / 0x40_0000];
      assert pde == Entry(ram[..], cr3 / 0x1000, address / 0x40_0000);
      var pte := ram[1024 * Frame(pde) + address / 0x1000 % 1024];
      assert pte == Entry(ram[..], Frame(pde), address / 0x1000 % 1024);
      index := 1024 * Frame(pte) + address % 0x1000 / 4;
    }

    method Read(address: Word) returns (w: Word)
      requires ram.Length == MEM_WORDS && Aligned(cr3) && address % 4 == 0 && Reaches(ram[..], cr3, address / 0x1000)
      ensures w == ram[address / 4]
    {
      var index := Locate(address);
      w := ram[index];
    }

    method Write(address: Word, w: Word)
      requires ram.Length == MEM_WORDS && Aligned(cr3) && address % 4 == 0 && Reaches(ram[..], cr3, address / 0x1000)
      modifies ram
      ensures ram[address / 4] == w
      ensures forall k :: 0 <= k < MEM_WORDS && k != address / 4 ==> ram[k] == old(ram[k])
    {
      var index := Locate(address);
      ram[index] := w;
    }

    /** pointer[k], for a page-aligned pointer to words. */
    method Load(pointer: Word, k: nat) returns (w: Word)
      requires ram.Length == MEM_WORDS && Aligned(cr3) && Aligned(pointer) && k < 1024
      requires Reaches(ram[..], cr3, pointer / 0x1000)
      ensures w == Entry(ram[..], pointer / 0x1000, k)
    {
      ElementAddress(pointer, k);
      w := Read(pointer + 4 * k);
    }

    /** pointer[k] = w. */
    method Store(pointer: Word, k: nat, w: Word)
      requires ram.Length == MEM_WORDS && Aligned(cr3) && Aligned(pointer) && k < 1024
      requires Reaches(ram[..], cr3, pointer / 0x1000)
      modifies ram
      ensures ram[..] == old(ram[..])[1024 * (pointer / 0x1000) + k := w]
    {
      ElementAddress(pointer, k);
      hide Reaches;
      Write(pointer + 4 * k, w);
    }

    // -------------------------------------------------------- init_paging

    method InitPaging()
      requires Valid() && cr3 == 0
      modifies ram, this`cr3
      ensures Valid() && cr3 == pageDirectory
      ensures ram[..] == PagingStarted(old(ram[..]), pageDirectory / 0x1000, identityTables / 0x1000)
    {
      hide BitOr, TablesFilled, Splice;
      ghost var kernel, tables := pageDirectory / 0x1000, identityTables / 0x1000;
      ZeroPage(pageDirectory);
      assert ram[..] == TablesFilled(old(ram[..]), kernel, tables, 0) by { NoTablesYet(old(ram[..]), kernel, tables); }
      PointerIndex(pageDirectory);
      PointerIndex(identityTables);
      var table := 0;
      while table < 4
        invariant 0 <= table <= 4 && Valid() && cr3 == 0
        invariant ram[..] == TablesFilled(old(ram[..]), kernel, tables, table)
      {
        FillTable(table);
        FlagOr(tables + table, 3);
        var entry := BitOr(identityTables + table * 0x1000, 3);
        Store(pageDirectory, table, entry);
        TablesFilledStep(old(ram[..]), kernel, tables, table);
        table := table + 1;
      }
      FlagOr(kernel, 3);
      Store(pageDirectory, 1023, BitOr(pageDirectory, 3));
      cr3 := pageDirectory;
    }

    /** The inner loop of init_paging: one identity table. */
    method FillTable(table: nat)
      requires Valid() && cr3 == 0 && table < 4
      modifies ram
      ensures var tables := identityTables / 0x1000;
              ram[..] == Splice(old(ram[..]), 1024 * (tables + table), IdentityTable(table))
    {
      hide BitOr, Reaches, Splice;
      var pointer := identityTables + 4096 * table;
      TablePointer(identityTables, table);
      ghost var m, base := ram[..], 1024 * (pointer / 0x1000);
      var entry := 0;
      while entry < 1024
        invariant 0 <= entry <= 1024
        invariant forall k :: base <= k < base + entry ==> ram[k] == IdentityTable(table)[k - base]
        invariant forall k :: 0 <= k < MEM_WORDS && !(base <= k < base + entry) ==> ram[k] == m[k]
      {
        FlagOr(1024 * table + entry, 3);
        ElementAddress(pointer, entry);
        NoPagingReaches(ram[..], pointer / 0x1000);
        Write(pointer + 4 * entry, BitOr((table * 1024 + entry) * 0x1000, 3));
        entry := entry + 1;
      }
      IsSplice(m, ram[..], base, IdentityTable(table));
    }

    /** The clearing loop of init_paging and of map_page_in. */
    method ZeroPage(table: Word)
      requires ram.Length == MEM_WORDS && Aligned(cr3) && Aligned(table) && Ordinary(ram[..], cr3, table / 0x1000)
      modifies ram
      ensures ram[..] == Splice(old(ram[..]), 1024 * (table / 0x1000), Zeros())
    {
      PointerIndex(table);
      ghost var m, page := ram[..], table / 0x1000;
      var base := table / 4;
      var i := 0;
      hide Ordinary, Reaches, OffTables;
      while i < 1024
        invariant 0 <= i <= 1024
        invariant forall k :: base <= k < base + i ==> ram[k] == 0
        invariant forall k :: 0 <= k < MEM_WORDS && !(base <= k < base + i) ==> ram[k] == m[k]
      {
        StillOrdinary(m, ram[..], cr3, page);
        ElementAddress(table, i);
        Write(table + 4 * i, 0);
        i := i + 1;
      }
      IsSplice(m, ram[..], base, Zeros());
    }

    // -------------------------------------------------------- map_page_in

    /** The first half of map_page_in: find or make the table of slot di. */
    method TableOf(directory: Word, di: nat, user: bool) returns (ok: bool, table: Word)
      requires Valid() && Aligned(directory) && di < 1024
      requires MapServed(pmm.View(), ram[..], cr3, directory / 0x1000, di)
      modifies ram, pmm, pmm.bitmap
      ensures Valid()
      ensures var r := TableMade(old(pmm.View()), old(ram[..]), directory / 0x1000, di, user);
              pmm.View() == r.0 && ram[..] == r.1 && ok == r.2.Some? && (ok ==> table == 0x1000 * r.2.value)
      ensures ok ==> Reaches(ram[..], cr3, table / 0x1000)
    {
      hide BitAnd, BitOr, WithUser, Present, Frame, Least, Splice, FreePages, Reaches, OffTables, UserBit;
      ghost var m, dir := ram[..], directory / 0x1000;
      var pde := Load(directory, di);
      EntryBits(pde);
      WithUserDigits(pde);
      if BitAnd(pde, PRESENT) != 0 {
        table := BitAnd(pde, 0xffff_f000);
        if user {
          Store(directory, di, BitOr(pde, USER));
          ReachesAfterEntry(m, cr3, dir, di, WithUser(pde), Frame(pde));
        }
      } else {
        table := pmm.AllocatePage();
        if table == 0 {
          return false, 0;
        }
        FillSlot(directory, di, user, table);
      }
      ok := true;
    }

    /** A fresh table is cleared and entered in an empty slot. */
    method FillSlot(directory: Word, di: nat, user: bool, table: Word)
      requires Valid() && Aligned(directory) && di < 1024 && Aligned(table) && table / 0x1000 != directory / 0x1000
      requires !Present(Entry(ram[..], directory / 0x1000, di))
      requires Reaches(ram[..], cr3, directory / 0x1000) && Ordinary(ram[..], cr3, table / 0x1000)
      modifies ram
      ensures var dir, page := directory / 0x1000, table / 0x1000;
              ram[..] == Splice(old(ram[..]), 1024 * page, Zeros())[1024 * dir + di := MakeEntry(page, user)]
      ensures Reaches(ram[..], cr3, table / 0x1000)
    {
      hide BitAnd, BitOr, Present, Frame, Reaches, OffTables;
      ghost var m, dir, page := ram[..], directory / 0x1000, table / 0x1000;
      PointerIndex(table);
      ZeroPage(table);
      ghost var m1 := ram[..];
      OnlyPageEntry(m, m1, page, dir, di);
      ReachesKept(m, m1, cr3, page, dir);
      ReachesKept(m, m1, cr3, page, page);
      hide Splice, OnlyPage, Ordinary;
      var flags := if user then 7 else 3;
      FlagOr(page, flags);
      Store(directory, di, BitOr(table, flags));
      ReachesAfterEntry(m1, cr3, dir, di, MakeEntry(page, user), page);
    }

    method MapPageIn(directory: Word, va: Word, pa: Word, mode: Byte)
      requires Valid() && Aligned(directory)
      requires MapServed(pmm.View(), ram[..], cr3, directory / 0x1000, DirIndex(va))
      modifies ram, pmm, pmm.bitmap
      ensures Valid()
      ensures var r := MapIn(old(pmm.View()), old(ram[..]), directory / 0x1000, va, pa, mode == 0x55 || mode == 0x75);
              pmm.View() == r.0 && ram[..] == r.1
    {
      hide BitAnd, BitOr, TableMade, FreePages, Frame, MapServed, Reaches, Present, Least, Splice, OffTables, UserBit;
      hide Entry;
      var di := va / 0x40_0000 % 1024;
      var ti := va / 0x1000 % 1024;
      var user := mode == 0x55 || mode == 0x75;
      var flags := if user then 7 else 3;
      var ok, table := TableOf(directory, di, user);
      if ok {
        var entry := BitOr(BitAnd(pa, 0xffff_f000), flags);
        assert entry == MakeEntry(Frame(pa), user) by {
          EntryBits(pa);
          FlagOr(Frame(pa), flags);
        }
        Store(table, ti, entry);
      }
    }

    // ------------------------------------------------ create_page_directory

    method CreatePageDirectory() returns (address: Word)
      requires Valid() && DirectoryServed(pmm.View(), ram[..], cr3, pageDirectory / 0x1000)
      modifies ram, pmm, pmm.bitmap
      ensures Valid()
      ensures var r := NewDirectory(old(pmm.View()), old(ram[..]), pageDirectory / 0x1000);
              pmm.View() == r.0 && ram[..] == r.1 && address == r.2
    {
      hide FreePages, Splice, DirectoryCopy, Least, IsLeast, Reaches, OffTables, Ordinary;
      address := pmm.AllocatePage();
      if address == 0 {
        return;
      }
      CopyDirectory(address);
    }

    /** The copying loop of create_page_directory and the recursive entry. */
    method CopyDirectory(address: Word)
      requires ram.Length == MEM_WORDS && Aligned(cr3) && Aligned(address) && Aligned(pageDirectory)
      requires Reaches(ram[..], cr3, pageDirectory / 0x1000) && Ordinary(ram[..], cr3, address / 0x1000)
      modifies ram
      ensures ram[..] == Splice(old(ram[..]), 1024 * (address / 0x1000),
                                DirectoryCopy(old(ram[..]), pageDirectory / 0x1000, address / 0x1000))
    {
      hide Ordinary, Reaches, OffTables, BitOr;
      PointerIndex(address);
      ghost var m, page, kernel := ram[..], address / 0x1000, pageDirectory / 0x1000;
      CopyWords(address);
      FlagOr(page, 3);
      StillOrdinary(m, ram[..], cr3, page);
      ElementAddress(address, 1023);
      ghost var copied := ram[..];
      Write(address + 4092, BitOr(address, 3));
      forall k | 1024 * page <= k < 1024 * page + 1024
        ensures ram[k] == DirectoryCopy(m, kernel, page)[k - 1024 * page]
      {
        assert k != 1024 * page + 1023 ==> ram[k] == copied[k] == Entry(m, kernel, k - 1024 * page);
      }
      IsSplice(m, ram[..], 1024 * page, DirectoryCopy(m, kernel, page));
    }

    method CopyWords(address: Word)
      requires ram.Length == MEM_WORDS && Aligned(cr3) && Aligned(address) && Aligned(pageDirectory)
      requires Reaches(ram[..], cr3, pageDirectory / 0x1000) && Ordinary(ram[..], cr3, address / 0x1000)
      modifies ram
      ensures OnlyPage(old(ram[..]), ram[..], address / 0x1000)
      ensures var base, kernel := 1024 * (address / 0x1000), pageDirectory / 0x1000;
              forall k :: base <= k < base + 1024 ==> ram[k] == Entry(old(ram[..]), kernel, k - base)
    {
      hide Ordinary, Reaches, OffTables;
      ghost var m, page, kernel := ram[..], address / 0x1000, pageDirectory / 0x1000;
      ghost var base, from := 1024 * page, 1024 * kernel;
      var i := 0;
      while i < 1024
        invariant 0 <= i <= 1024
        invariant forall k :: base <= k < base + i ==> ram[k] == m[from + k - base]
        invariant forall k :: 0 <= k < MEM_WORDS && !(base <= k < base + i) ==> ram[k] == m[k]
      {
        StillOrdinary(m, ram[..], cr3, page);
        StillReached(m, ram[..], cr3, page, kernel);
        ElementAddress(address, i);
        ElementAddress(pageDirectory, i);
        SourceIntact(m, ram[..], page, kernel, i);
        var w := Read(pageDirectory + 4 * i);
        Write(address + 4 * i, w);
        i := i + 1;
      }
    }

    // ---------------------------------------------------- user_range_valid

    method UserPagePresent(directory: Word, address: Word) returns (present: bool)
      requires ram.Length == MEM_WORDS && Aligned(cr3) && Aligned(directory)
      requires Walkable(ram[..], cr3, directory / 0x1000)
      ensures present <==> UserReaches(ram[..], directory / 0x1000, address)
    {
      hide BitAnd, Reaches;
      var pde := Load(directory, address / 0x40_0000 % 1024);
      EntryBits(pde);
      if BitAnd(pde, 5) != 5 {
        return false;
      }
      var table := BitAnd(pde, 0xffff_f000);
      var pte := Load(table, address / 0x1000 % 1024);
      EntryBits(pte);
      present := BitAnd(pte, 5) == 5;
    }

    /** True exactly when every byte of the range is user memory below the limit. */
    method UserRangeValid(directory: Word, address: Word, length: Word) returns (valid: bool)
      requires ram.Length == MEM_WORDS && Aligned(cr3) && Aligned(directory)
      requires directory != 0 ==> Walkable(ram[..], cr3, directory / 0x1000)
      ensures valid <==> directory != 0 && address < 0xc000_0000
                         && forall x :: address <= x < address + length ==> UserByte(ram[..], directory / 0x1000, x)
    {
      hide BitAnd, UserReaches, Walkable;
      if directory == 0 || address >= USER_LIMIT {
        return false;
      }
      if length == 0 {
        return true;
      }
      if length > USER_LIMIT - address {
        assert !UserByte(ram[..], directory / 0x1000, USER_LIMIT);
        return false;
      }
      var end := Wrap32(address + length - 1);
      valid := PagesPresent(directory, address, end);
      assert !valid ==>
          exists x: Word :: address <= x < address + length && !UserByte(ram[..], directory / 0x1000, x) by {
        if !valid {
          var x: Word :| address <= x <= end && !UserReaches(ram[..], directory / 0x1000, x);
          assert !UserByte(ram[..], directory / 0x1000, x);
        }
      }
    }

    /** The page loop of user_range_valid; it ends without wrapping for every range. */
    method PagesPresent(directory: Word, address: Word, end: Word) returns (all: bool)
      requires ram.Length == MEM_WORDS && Aligned(cr3) && Aligned(directory)
      requires Walkable(ram[..], cr3, directory / 0x1000)
      requires address <= end < USER_LIMIT
      ensures all <==> forall x: Word :: address <= x <= end ==> UserReaches(ram[..], directory / 0x1000, x)
    {
      hide BitAnd, UserReaches, Walkable, Wrap32, Reaches, Aligned;
      PageStart(end);
      PageStart(address);
      var lastPage: Word := BitAnd(end, 0xffff_f000);
      var page: Word := BitAnd(address, 0xffff_f000);
      PagesOrdered(page, lastPage);
      while true
        invariant Aligned(page) && page <= lastPage && (page <= address < page + 0x1000 || address < page)
        invariant forall x: Word :: address <= x < page ==> UserReaches(ram[..], directory / 0x1000, x)
        decreases lastPage - page
      {
        var present := UserPagePresent(directory, page);
        PageReaches(ram[..], directory / 0x1000, page);
        if !present {
          ghost var x: Word := if page < address then address else page;
          assert address <= x <= end && !UserReaches(ram[..], directory / 0x1000, x);
          return false;
        }
        if page == lastPage {
          break;
        }
        NextPage(page, lastPage);
        page := Wrap32(page + 0x1000);
      }
      return true;
    }
  }
}
