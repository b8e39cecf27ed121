/**
 Process creation: either nothing at all changes, or a slot is filled with
 pages nobody else has.  Both kinds of creation are reduced to one relation,
 `Admits`, which keeps the run invariant.
 */
module Creation {
  import opened Options
  import opened Machine
  import opened Memory
  import opened Pmm
  import opened Paging
  import opened Process
  import opened Runs

  /** Pages other than those of the new slot and the shared table are untouched. */
  ghost predicate Elsewhere(l: Layout, m: seq<Word>, m': seq<Word>, pages: set<nat>)
    requires |m| == |m'| == MEM_WORDS
  {
    forall p, k :: 0 <= p < MAX_FRAMES && 0 <= k < 1024 && p !in pages && p != Tb(l) + 1 ==>
        Entry(m', p, k) == Entry(m, p, k)
  }

  /** A page changes in its first and last word only. */
  ghost predicate InnerKept(m: seq<Word>, m': seq<Word>, page: nat)
    requires |m| == |m'| == MEM_WORDS && page < MAX_FRAMES
  {
    forall k :: 1 <= k < 1023 ==> Entry(m', page, k) == Entry(m, page, k)
  }

  /** t' is t with slot i filled by a new process whose saved context is frame. */
  ghost predicate Admits(l: Layout, t: Table, t': Table, i: nat, frame: seq<Word>)
    requires TableOk(t) && LayoutOk(l)
  {
    && TableOk(t') && 1 <= i < |t.slots| && |t'.slots| == |t.slots| && Reusable(t.slots[i])
    && t' == t.(pool := t'.pool, mem := t'.mem, slots := t.slots[i := t'.slots[i]], nextPid := Wrap32(t.nextPid + 1))
    && var n := t'.slots[i];
       && n.state == Ready && !n.bootstrap && n.pid == t.nextPid && WellFormed(n)
       && PagesOf(n) <= t.pool.free && t'.pool == t.pool.(free := t.pool.free - PagesOf(n))
       && Elsewhere(l, t.mem, t'.mem, PagesOf(n))
       && FrameAddress(n.context) && FrameAt(t'.mem, n.context) == frame
       && DirectoryOk(l, t'.mem, n.directory, n.user)
       && if n.user then
            && Entry(t'.mem, Tb(l) + 1, 0) == MakeEntry(n.codeBase / 0x1000, true)
            && Entry(t'.mem, Tb(l) + 1, 1023) == MakeEntry(n.userStackBase / 0x1000, true)
            && InnerKept(t.mem, t'.mem, Tb(l) + 1)
          else SamePage(t.mem, t'.mem, Tb(l) + 1)
  }

  /** The system after an admission. */
  ghost function Admitted(s: System, t': Table, i: nat, frame: seq<Word>): System
    requires i < |s.saved| && i < |t'.slots|
  {
    var n := t'.slots[i];
    if n.user then
      s.(t := t', saved := s.saved[i := frame], users := s.users + 1,
         latestCode := n.codeBase / 0x1000, latestStack := n.userStackBase / 0x1000, latestUser := n.pid)
    else s.(t := t', saved := s.saved[i := frame], kernels := s.kernels + 1)
  }

  // ------------------------------------------- admission keeps the invariant

  lemma AdmitSlots(l: Layout, s: System, t': Table, i: nat, frame: seq<Word>)
    requires Inv(l, s) && Admits(l, s.t, t', i, frame)
    ensures SlotsOk(l, t') && PagesDisjoint(t') && PoolAbove(l, t'.pool)
  {
    var n := t'.slots[i];
    assert Taken(l, t'.pool, PagesOf(n));
    forall j | InUse(t', j) ensures WellFormed(t'.slots[j]) && Taken(l, t'.pool, PagesOf(t'.slots[j])) {
      if j != i {
        assert InUse(s.t, j);
      }
    }
    forall j, k | InUse(t', j) && InUse(t', k) && j != k ensures PagesOf(t'.slots[j]) !! PagesOf(t'.slots[k]) {
      if j != i { assert InUse(s.t, j) && Taken(l, s.t.pool, PagesOf(s.t.slots[j])); }
      if k != i { assert InUse(s.t, k) && Taken(l, s.t.pool, PagesOf(s.t.slots[k])); }
    }
  }

  lemma PageCount(n: Slot)
    requires WellFormed(n)
    ensures |PagesOf(n)| == if n.user then 4 else 2
  {
    PointerIndex(n.stackBase);
    PointerIndex(n.directory);
    if n.user {
      PointerIndex(n.codeBase);
      PointerIndex(n.userStackBase);
    }
  }

  lemma AdmitPids(l: Layout, s: System, t': Table, i: nat, frame: seq<Word>)
    requires Inv(l, s) && Admits(l, s.t, t', i, frame)
    ensures PidsOk(Admitted(s, t', i, frame))
  {
    var n, s' := t'.slots[i], Admitted(s, t', i, frame);
    PageCount(n);
    assert |s.t.pool.free - PagesOf(n)| == |s.t.pool.free| - |PagesOf(n)|;
    WrapSmall(s.t.nextPid + 1);
    forall j | InUse(t', j) ensures 1 <= t'.slots[j].pid < t'.nextPid && (j != i ==> t'.slots[j].pid < n.pid) {
      if j != i { assert InUse(s.t, j); }
    }
    forall j, k | InUse(t', j) && InUse(t', k) && j != k ensures t'.slots[j].pid != t'.slots[k].pid {
      if j != i && k != i { assert InUse(s.t, j) && InUse(s.t, k); }
    }
  }

  /** A page untouched by an admission: anything taken or inside the kernel, bar the shared table. */
  lemma AdmitKeepsPage(l: Layout, t: Table, t': Table, i: nat, frame: seq<Word>, page: nat)
    requires TableOk(t) && LayoutOk(l) && PoolAbove(l, t.pool) && Admits(l, t, t', i, frame)
    requires page < MAX_FRAMES && page !in t.pool.free && page != Tb(l) + 1
    ensures SamePage(t.mem, t'.mem, page)
  {
  }

  /** A context on a page that keeps its words is itself kept. */
  lemma SamePageFrame(m: seq<Word>, m': seq<Word>, page: nat)
    requires |m| == |m'| == MEM_WORDS && SamePage(m, m', page)
    ensures FrameAddress(TopFrame(0x1000 * page))
    ensures FrameAt(m', TopFrame(0x1000 * page)) == FrameAt(m, TopFrame(0x1000 * page))
  {
    TopFrameWords(page);
    var base := 1024 * page + 1009;
    forall k | base <= k < base + FRAME_WORDS ensures m'[k] == m[k] {
      assert Entry(m', page, k - 1024 * page) == Entry(m, page, k - 1024 * page);
    }
    SameWordsSameFrame(m, m', TopFrame(0x1000 * page));
  }

  lemma BootContextWords(l: Layout)
    requires LayoutOk(l)
    ensures FrameAddress(BootstrapContext(l)) && BootstrapContext(l) == 4 * BootWord(l) && BootstrapContext(l) > 0
    ensures BootWord(l) + FRAME_WORDS <= 1024 * KernelPages(l)
  {
    var x := l.bootstrapStack + 4036;
    WrapSmall(x);
    DivModUnique(l.bootstrapStack, 4, 4 * (l.bootstrapStack / 16), 0);
    DivModUnique(x, 4, 4 * (l.bootstrapStack / 16) + 1009, 0);
    hide Apart, TablesPlaced;
  }

  /** The bootstrap context lies in kernel pages other than the tables. */
  lemma BootFrameKept(l: Layout, m: seq<Word>, m': seq<Word>)
    requires LayoutOk(l) && |m| == |m'| == MEM_WORDS
    requires forall p :: 0 <= p < KernelPages(l) && p != Tb(l) + 1 ==> SamePage(m, m', p)
    ensures FrameAddress(BootstrapContext(l)) && FrameAt(m', BootstrapContext(l)) == FrameAt(m, BootstrapContext(l))
  {
    BootContextWords(l);
    var base := BootWord(l);
    forall k | base <= k < base + FRAME_WORDS ensures m'[k] == m[k] {
      var p, j := k / 1024, k % 1024;
      assert k == 1024 * p + j;
      assert p < KernelPages(l) && p != Tb(l) + 1;
      assert SamePage(m, m', p) && Entry(m', p, j) == Entry(m, p, j);
    }
    SameWordsSameFrame(m, m', BootstrapContext(l));
  }

  lemma AdmitFrames(l: Layout, s: System, t': Table, i: nat, frame: seq<Word>)
    requires Inv(l, s) && Admits(l, s.t, t', i, frame)
    ensures FramesOk(Admitted(s, t', i, frame))
  {
    var s' := Admitted(s, t', i, frame);
    if t'.running != 0 {
      forall p | 0 <= p < KernelPages(l) && p != Tb(l) + 1 ensures SamePage(s.t.mem, t'.mem, p) {
        AdmitKeepsPage(l, s.t, t', i, frame, p);
      }
      BootFrameKept(l, s.t.mem, t'.mem);
      assert FrameKept(s, 0);
    }
    forall j | InUse(t', j) && t'.slots[j].user && j != t'.running ensures FrameKept(s', j) {
      if j != i {
        assert InUse(s.t, j) && FrameKept(s, j);
        var page := s.t.slots[j].stackBase / 0x1000;
        PointerIndex(s.t.slots[j].stackBase);
        assert page in PagesOf(s.t.slots[j]);
        AdmitKeepsPage(l, s.t, t', i, frame, page);
        SamePageFrame(s.t.mem, t'.mem, page);
      }
    }
  }

  /** A directory that lies on untouched words stays as it is. */
  lemma DirectoryKept(l: Layout, m: seq<Word>, m': seq<Word>, directory: Word, user: bool)
    requires |m| == |m'| == MEM_WORDS && Tb(l) + 4 <= MAX_FRAMES && DirectoryOk(l, m, directory, user)
    requires SamePage(m, m', directory / 0x1000)
    ensures DirectoryOk(l, m', directory, user)
  {
    hide SlotWord, Entry;
  }

  lemma AdmitDirectories(l: Layout, s: System, t': Table, i: nat, frame: seq<Word>)
    requires Inv(l, s) && Admits(l, s.t, t', i, frame)
    ensures DirectoryOk(l, t'.mem, l.pageDirectory, false)
    ensures forall j :: InUse(t', j) ==> DirectoryOk(l, t'.mem, t'.slots[j].directory, t'.slots[j].user)
  {
    hide DirectoryOk, FramesOk, WindowOk, Elsewhere, InnerKept, FrameAt;
    AdmitKeepsPage(l, s.t, t', i, frame, Pd(l));
    DirectoryKept(l, s.t.mem, t'.mem, l.pageDirectory, false);
    forall j | InUse(t', j) ensures DirectoryOk(l, t'.mem, t'.slots[j].directory, t'.slots[j].user) {
      if j != i {
        assert InUse(s.t, j) && DirectoryOk(l, s.t.mem, s.t.slots[j].directory, s.t.slots[j].user);
        var page := s.t.slots[j].directory / 0x1000;
        assert page in PagesOf(s.t.slots[j]) && Taken(l, s.t.pool, PagesOf(s.t.slots[j]));
        AdmitKeepsPage(l, s.t, t', i, frame, page);
        DirectoryKept(l, s.t.mem, t'.mem, s.t.slots[j].directory, s.t.slots[j].user);
      }
    }
  }

  lemma AdmitWindow(l: Layout, s: System, t': Table, i: nat, frame: seq<Word>)
    requires Inv(l, s) && Admits(l, s.t, t', i, frame)
    ensures WindowOk(l, Admitted(s, t', i, frame))
  {
    var s', n := Admitted(s, t', i, frame), t'.slots[i];
    hide SlotsOk, PagesDisjoint, FramesOk, DirectoryOk, FrameAt, MakeEntry, PagesOf;
    forall p | 0 <= p < 4096 ensures WindowEntry(l, t'.mem, p) == MakeEntry(WindowPage(s', p), Redirected(s', p)) {
      assert WindowEntry(l, s.t.mem, p) == MakeEntry(WindowPage(s, p), Redirected(s, p));
      WindowSlot(p);
      if p / 1024 != 1 {
        AdmitKeepsPage(l, s.t, t', i, frame, Tb(l) + p / 1024);
      }
    }
  }

  lemma WindowSlot(p: nat)
    requires p < 4096
    ensures p / 1024 == 1 && p % 1024 == 0 <==> p == CODE_SLOT
    ensures p / 1024 == 1 && p % 1024 == 1023 <==> p == STACK_SLOT
  {
  }

  lemma AdmitLatest(l: Layout, s: System, t': Table, i: nat, frame: seq<Word>)
    requires Inv(l, s) && Admits(l, s.t, t', i, frame)
    ensures LatestOk(Admitted(s, t', i, frame))
  {
    var s', n := Admitted(s, t', i, frame), t'.slots[i];
    hide FramesOk, MapsOk, FrameAt, Elsewhere, DirectoryOk, InnerKept;
    WrapSmall(s.t.nextPid + 1);
    if n.user {
      assert n.codeBase / 0x1000 in PagesOf(n);
    }
    forall j | InUse(t', j) && t'.slots[j].user
      ensures s'.users > 0 && (t'.slots[j].pid == s'.latestUser <==> t'.slots[j].codeBase / 0x1000 == s'.latestCode)
    {
      if j != i {
        assert InUse(s.t, j) && s.t.slots[j] == t'.slots[j];
        assert t'.slots[j].codeBase / 0x1000 in PagesOf(s.t.slots[j]) && Taken(l, s.t.pool, PagesOf(s.t.slots[j]));
      }
    }
  }

  /** Admission by a running process keeps the invariant. */
  lemma AdmitKeepsInv(l: Layout, s: System, t': Table, i: nat, frame: seq<Word>)
    requires Inv(l, s) && s.t.slots[s.t.running].state == Running && Admits(l, s.t, t', i, frame)
    requires ReachOk(Admitted(s, t', i, frame))
    ensures Inv(l, Admitted(s, t', i, frame))
  {
    AdmitSlots(l, s, t', i, frame);
    AdmitPids(l, s, t', i, frame);
    AdmitFrames(l, s, t', i, frame);
    AdmitDirectories(l, s, t', i, frame);
    AdmitWindow(l, s, t', i, frame);
    AdmitLatest(l, s, t', i, frame);
    hide FramesOk, WindowOk, DirectoryOk, SlotsOk, PagesDisjoint, PidsOk, ReachOk, LatestOk;
  }

  // ------------------------------------------------ creation is admission

  lemma PageWritten(m: seq<Word>, page: nat, ws: seq<Word>)
    requires |m| == MEM_WORDS && page < MAX_FRAMES && |ws| == 1024
    ensures var m' := Splice(m, 1024 * page, ws);
            && (forall k :: 0 <= k < 1024 ==> Entry(m', page, k) == ws[k])
            && forall p, k :: 0 <= p < MAX_FRAMES && 0 <= k < 1024 && p != page ==> Entry(m', p, k) == Entry(m, p, k)
  {
  }

  lemma FrameWritten(m: seq<Word>, page: nat, frame: seq<Word>)
    requires |m| == MEM_WORDS && page < MAX_FRAMES && |frame| == FRAME_WORDS
    ensures var context := TopFrame(0x1000 * page);
            var m' := WithFrame(m, context, frame);
            && FrameAddress(context) && FrameAt(m', context) == frame
            && forall p, k :: 0 <= p < MAX_FRAMES && 0 <= k < 1024 && p != page ==> Entry(m', p, k) == Entry(m, p, k)
  {
    TopFrameWords(page);
  }

  /** A kernel slot holding stack page p and directory page q. */
  ghost function KernelSlot(pid: Word, p: nat, q: nat, entry: Word, argument: Word): Slot
    requires p < MAX_FRAMES && q < MAX_FRAMES
  {
    Slot(pid, Ready, 0x1000 * q, 0x1000 * p, TopFrame(0x1000 * p), entry, argument, false, false, 0, 0)
  }

  /** Memory after process_create has copied the directory and written the frame. */
  ghost predicate KernelMemory(l: Layout, m: seq<Word>, m': seq<Word>, p: nat, q: nat)
    requires LayoutOk(l) && p < MAX_FRAMES && q < MAX_FRAMES
  {
    && |m| == |m'| == MEM_WORDS
    && (forall x, k :: 0 <= x < MAX_FRAMES && 0 <= k < 1024 && x !in {p, q} ==> Entry(m', x, k) == Entry(m, x, k))
    && DirectoryOk(l, m', 0x1000 * q, false)
    && FrameAddress(TopFrame(0x1000 * p)) && FrameAt(m', TopFrame(0x1000 * p)) == KernelFrame(l, 0x1000 * p)
  }

  /** The copy of the kernel directory is a directory in order. */
  lemma CopyOk(l: Layout, m: seq<Word>, d: nat)
    requires LayoutOk(l) && |m| == MEM_WORDS && d < MAX_FRAMES && DirectoryOk(l, m, l.pageDirectory, false)
    ensures DirectoryOk(l, Splice(m, 1024 * d, DirectoryCopy(m, Pd(l), d)), 0x1000 * d, false)
  {
    var m1 := Splice(m, 1024 * d, DirectoryCopy(m, Pd(l), d));
    PageWritten(m, d, DirectoryCopy(m, Pd(l), d));
    hide Splice, MakeEntry, Entry;
    assert 0x1000 * d / 0x1000 == d;
    forall i | 0 <= i < 1024 ensures Entry(m1, d, i) == SlotWord(l, d, false, i) {
      assert Entry(m1, d, i) == DirectoryWord(m, Pd(l), d, i);
      assert Entry(m, Pd(l), i) == SlotWord(l, Pd(l), false, i);
    }
  }

  lemma CopiedAndFramed(l: Layout, m: seq<Word>, p: nat, q: nat)
    requires LayoutOk(l) && |m| == MEM_WORDS && p < MAX_FRAMES && q < MAX_FRAMES && p != q
    requires DirectoryOk(l, m, l.pageDirectory, false)
    ensures KernelMemory(l, m, WithFrame(Splice(m, 1024 * q, DirectoryCopy(m, Pd(l), q)), TopFrame(0x1000 * p),
                                         KernelFrame(l, 0x1000 * p)), p, q)
  {
    var m1 := Splice(m, 1024 * q, DirectoryCopy(m, Pd(l), q));
    PageWritten(m, q, DirectoryCopy(m, Pd(l), q));
    CopyOk(l, m, q);
    FrameWritten(m1, p, KernelFrame(l, 0x1000 * p));
    var m2 := WithFrame(m1, TopFrame(0x1000 * p), KernelFrame(l, 0x1000 * p));
    hide Splice, WithFrame, DirectoryOk, InitialFrame, FrameAt, TopFrame, KernelFrame;
    assert 0x1000 * q / 0x1000 == q;
    DirectoryKept(l, m1, m2, 0x1000 * q, false);
  }

  /** The two pages process_create takes, lowest first. */
  lemma TwoPages(l: Layout, t: Table) returns (p: nat, q: nat)
    requires TableOk(t) && LayoutOk(l) && |t.pool.free| >= 2
    ensures Lowest(t.pool.free, 2) == [p, q]
    ensures p in t.pool.free && q in t.pool.free - {p} && Least(t.pool.free - {p}) == q
    ensures 0 < p < MAX_FRAMES && 0 < q < MAX_FRAMES
    ensures Allocated(t.pool) == (t.pool.(free := t.pool.free - {p}), 0x1000 * p)
    ensures NewDirectory(Allocated(t.pool).0, t.mem, Pd(l))
            == (t.pool.(free := t.pool.free - {p, q}), Splice(t.mem, 1024 * q, DirectoryCopy(t.mem, Pd(l), q)),
                0x1000 * q)
  {
    p := TakenPage(t.pool);
    RemoveOne(t.pool.free, p);
    q := TakenPage(Allocated(t.pool).0);
    LowestNext(t.pool.free, 2);
    LowestNext(t.pool.free - {p}, 1);
    hide Least, IsLeast, Splice, DirectoryCopy;
    assert t.pool.free - {p} - {q} == t.pool.free - {p, q};
  }

  lemma CreatedShape(l: Layout, t: Table, entry: Word, argument: Word) returns (p: nat, q: nat)
    requires TableOk(t) && LayoutOk(l) && DirectoryOk(l, t.mem, l.pageDirectory, false)
    requires Created(l, t, entry, argument).1.Some?
    ensures Lowest(t.pool.free, 2) == [p, q]
    ensures p in t.pool.free && q in t.pool.free && p != q && p < MAX_FRAMES && q < MAX_FRAMES
    ensures Allocated(t.pool) == (t.pool.(free := t.pool.free - {p}), 0x1000 * p)
    ensures q in t.pool.free - {p} && Least(t.pool.free - {p}) == q
    ensures KernelMemory(l, t.mem, Created(l, t, entry, argument).0.mem, p, q)
    ensures var i := FirstReusable(t.slots, 1);
            && i.Some?
            && Created(l, t, entry, argument).0
               == t.(pool := t.pool.(free := t.pool.free - {p, q}), mem := Created(l, t, entry, argument).0.mem,
                     slots := t.slots[i.value := KernelSlot(t.nextPid, p, q, entry, argument)],
                     nextPid := Wrap32(t.nextPid + 1))
  {
    hide Least, IsLeast, InitialFrame, Splice, DirectoryCopy, WithFrame, TopFrame, KernelMemory, Allocated;
    hide NewDirectory;
    hide DirectoryOk, LayoutOk;
    p, q := TwoPages(l, t);
    CopiedAndFramed(l, t.mem, p, q);
  }

  lemma CreatedAdmits(l: Layout, t: Table, entry: Word, argument: Word)
    requires TableOk(t) && LayoutOk(l) && PoolAbove(l, t.pool) && DirectoryOk(l, t.mem, l.pageDirectory, false)
    requires Created(l, t, entry, argument).1.Some?
    ensures FirstReusable(t.slots, 1).Some?
    ensures var i := FirstReusable(t.slots, 1).value;
            var t' := Created(l, t, entry, argument).0;
            Admits(l, t, t', i, KernelFrame(l, t'.slots[i].stackBase)) && !t'.slots[i].user
  {
    hide Created, KernelMemory, Admits, KernelFrame, KernelSlot, DirectoryOk, PoolAbove;
    var p, q := CreatedShape(l, t, entry, argument);
    NewSlotAdmits(l, t, Created(l, t, entry, argument).0, FirstReusable(t.slots, 1).value, p, q, entry, argument);
  }

  /** Filling a reusable slot as process_create does is an admission. */
  lemma NewSlotAdmits(l: Layout, t: Table, t': Table, i: nat, p: nat, q: nat, entry: Word, argument: Word)
    requires TableOk(t) && LayoutOk(l) && PoolAbove(l, t.pool) && DirectoryOk(l, t.mem, l.pageDirectory, false)
    requires 1 <= i < |t.slots| && Reusable(t.slots[i]) && p < MAX_FRAMES && q < MAX_FRAMES
    requires p in t.pool.free && q in t.pool.free && p != q && KernelMemory(l, t.mem, t'.mem, p, q)
    requires t' == t.(pool := t.pool.(free := t.pool.free - {p, q}), mem := t'.mem,
                      slots := t.slots[i := KernelSlot(t.nextPid, p, q, entry, argument)],
                      nextPid := Wrap32(t.nextPid + 1))
    ensures Admits(l, t, t', i, KernelFrame(l, t'.slots[i].stackBase)) && !t'.slots[i].user
  {
    hide KernelFrame, InitialFrame, TopFrame, FrameAt, Wrap32;
    assert PagesOf(t'.slots[i]) == {p, q};
  }

  lemma LowestFour(s: set<nat>, p: nat, c: nat, u: nat, d: nat)
    requires s != {} && p == Least(s) && s - {p} != {} && c == Least(s - {p})
    requires s - {p} - {c} != {} && u == Least(s - {p} - {c})
    requires s - {p} - {c} - {u} != {} && d == Least(s - {p} - {c} - {u})
    ensures Lowest(s, 4) == [p, c, u, d]
  {
    hide Least;
    LowestNext(s, 4);
    LowestNext(s - {p}, 3);
    LowestNext(s - {p} - {c}, 2);
    LowestNext(s - {p} - {c} - {u}, 1);
    hide Lowest;
    assert Lowest(s, 4) == [p] + ([c] + ([u] + ([d] + [])));
  }

  /** The four pages process_create_user takes: distinct, lowest first, the directory last. */
  lemma FourPages(l: Layout, t: Table) returns (p: nat, c: nat, u: nat, d: nat)
    requires TableOk(t) && LayoutOk(l) && |t.pool.free| >= 4
    ensures Lowest(t.pool.free, 4) == [p, c, u, d]
    ensures {p, c, u, d} <= t.pool.free && p != c && p != u && p != d && c != u && c != d && u != d
    ensures 0 < p < MAX_FRAMES && 0 < c < MAX_FRAMES && 0 < u < MAX_FRAMES && 0 < d < MAX_FRAMES
    ensures forall x :: x in t.pool.free ==> p <= x
    ensures ThreeTaken(t.pool) == t.pool.(free := t.pool.free - {p, c, u})
    ensures d in t.pool.free - {p, c, u} && Least(t.pool.free - {p, c, u}) == d
    ensures UserPagesTaken(l, t)
            == (t.pool.(free := t.pool.free - {p, c, u, d}), Splice(t.mem, 1024 * d, DirectoryCopy(t.mem, Pd(l), d)),
                UserPages(0x1000 * p, 0x1000 * c, 0x1000 * u, 0x1000 * d))
  {
    p := TakenPage(t.pool);
    RemoveOne(t.pool.free, p);
    var pool1 := Allocated(t.pool).0;
    c := TakenPage(pool1);
    RemoveOne(pool1.free, c);
    var pool2 := Allocated(pool1).0;
    u := TakenPage(pool2);
    RemoveOne(pool2.free, u);
    var pool3 := Allocated(pool2).0;
    d := TakenPage(pool3);
    LowestFour(t.pool.free, p, c, u, d);
    hide Least, IsLeast, Splice, DirectoryCopy;
    assert t.pool.free - {p, c, u, d} == t.pool.free - {p} - {c} - {u} - {d};
    assert t.pool.free - {p, c, u} == t.pool.free - {p} - {c} - {u};
    assert Allocated(pool3).0 == t.pool.(free := t.pool.free - {p, c, u, d});
  }

  lemma UserEntry(f: nat)
    requires f < MAX_FRAMES
    ensures WithUser(MakeEntry(f, false)) == WithUser(MakeEntry(f, true)) == MakeEntry(f, true)
    ensures Present(MakeEntry(f, false)) && Frame(MakeEntry(f, false)) == f
    ensures Present(MakeEntry(f, true)) && Frame(MakeEntry(f, true)) == f
  {
    EntryDigits(f, false);
    EntryDigits(f, true);
    WithUserDigits(MakeEntry(f, false));
  }

  /** The user pages are in place: in the shared table, under a directory with the user bit. */
  ghost predicate UserMapped(l: Layout, m: seq<Word>, m': seq<Word>, d: nat, c: nat, u: nat)
    requires |m| == |m'| == MEM_WORDS && Tb(l) + 4 <= MAX_FRAMES && d < MAX_FRAMES && c < MAX_FRAMES && u < MAX_FRAMES
  {
    && DirectoryOk(l, m', 0x1000 * d, true) && InnerKept(m, m', Tb(l) + 1)
    && Entry(m', Tb(l) + 1, 0) == MakeEntry(c, true) && Entry(m', Tb(l) + 1, 1023) == MakeEntry(u, true)
  }

  /** One mapping into the second slot of a directory in order. */
  lemma OneMapping(l: Layout, a: Pool, m: seq<Word>, d: nat, j: nat, f: nat, user: bool)
    requires PoolOk(a) && |m| == MEM_WORDS && LayoutOk(l) && d < MAX_FRAMES && f < MAX_FRAMES && j < 1024
    requires d != Tb(l) + 1 && DirectoryOk(l, m, 0x1000 * d, user)
    ensures var (a', m') := MapAt(a, m, d, 1, j, f, true);
            && a' == a && DirectoryOk(l, m', 0x1000 * d, true)
            && Entry(m', Tb(l) + 1, j) == MakeEntry(f, true)
            && forall p, k :: 0 <= p < MAX_FRAMES && 0 <= k < 1024 && p != d && (p != Tb(l) + 1 || k != j) ==>
                                Entry(m', p, k) == Entry(m, p, k)
  {
    hide MapAt, MakeEntry, Present, UserBit, Frame, WithUser;
    assert 0x1000 * d / 0x1000 == d;
    UserEntry(Tb(l) + 1);
    assert Entry(m, d, 1) == SlotWord(l, d, user, 1) == MakeEntry(Tb(l) + 1, user);
    MapAtPresent(a, m, d, 1, j, f, true);
    var m' := MapAt(a, m, d, 1, j, f, true).1;
    forall i | 0 <= i < 1024 ensures Entry(m', d, i) == SlotWord(l, d, true, i) {
      if i != 1 {
        MapAtWrites(a, m, d, 1, j, f, true, d, i);
        assert Entry(m, d, i) == SlotWord(l, d, user, i);
      }
    }
    forall p, k | 0 <= p < MAX_FRAMES && 0 <= k < 1024 && p != d && (p != Tb(l) + 1 || k != j)
      ensures Entry(m', p, k) == Entry(m, p, k)
    {
      MapAtWrites(a, m, d, 1, j, f, true, p, k);
    }
  }

  /** The user code and stack addresses are the ends of directory slot 1. */
  lemma UserIndexes(c: nat, u: nat)
    requires c < MAX_FRAMES && u < MAX_FRAMES
    ensures DirIndex(USER_CODE_ADDRESS) == DirIndex(USER_STACK_TOP - 4096) == 1
    ensures TableIndex(USER_CODE_ADDRESS) == 0 && TableIndex(USER_STACK_TOP - 4096) == 1023
    ensures Frame(0x1000 * c) == c && Frame(0x1000 * u) == u
  {
  }

  /** Memory after both user mappings of a directory in order. */
  lemma TwoMappings(l: Layout, a: Pool, m: seq<Word>, d: nat, c: nat, u: nat)
    requires PoolOk(a) && |m| == MEM_WORDS && LayoutOk(l) && d < MAX_FRAMES && DirectoryOk(l, m, 0x1000 * d, false)
    requires c < MAX_FRAMES && u < MAX_FRAMES && d != Tb(l) + 1
    ensures var (a1, m1) := MapIn(a, m, d, USER_CODE_ADDRESS, 0x1000 * c, true);
            var (a2, m2) := MapIn(a1, m1, d, USER_STACK_TOP - 4096, 0x1000 * u, true);
            a2 == a && Elsewhere(l, m, m2, {d}) && UserMapped(l, m, m2, d, c, u)
  {
    hide MapAt, MakeEntry, DirIndex, TableIndex, Frame, Entry, DirectoryOk;
    UserIndexes(c, u);
    OneMapping(l, a, m, d, 0, c, false);
    var (a1, m1) := MapAt(a, m, d, 1, 0, c, true);
    OneMapping(l, a1, m1, d, 1023, u, true);
  }

  /** A user slot holding pages p (kernel stack), c, u and d. */
  ghost function UserSlot(pid: Word, p: nat, c: nat, u: nat, d: nat): Slot
    requires p < MAX_FRAMES && c < MAX_FRAMES && u < MAX_FRAMES && d < MAX_FRAMES
  {
    Slot(pid, Ready, 0x1000 * d, 0x1000 * p, TopFrame(0x1000 * p), 0, 0, false, true, 0x1000 * c, 0x1000 * u)
  }

  lemma UserSlotPages(pid: Word, p: nat, c: nat, u: nat, d: nat)
    requires p < MAX_FRAMES && c < MAX_FRAMES && u < MAX_FRAMES && d < MAX_FRAMES
    requires p != c && p != u && p != d && c != u && c != d && u != d
    ensures PagesOf(UserSlot(pid, p, c, u, d)) == {p, c, u, d} && WellFormed(UserSlot(pid, p, c, u, d))
  {
  }

  /** Memory after process_create_user has mapped, loaded and framed its four pages. */
  ghost predicate UserMemory(l: Layout, m: seq<Word>, m': seq<Word>, p: nat, c: nat, u: nat, d: nat)
    requires LayoutOk(l) && p < MAX_FRAMES && c < MAX_FRAMES && u < MAX_FRAMES && d < MAX_FRAMES
  {
    && |m| == |m'| == MEM_WORDS && Elsewhere(l, m, m', {p, c, u, d})
    && UserMapped(l, m, m', d, c, u)
    && FrameAddress(TopFrame(0x1000 * p)) && FrameAt(m', TopFrame(0x1000 * p)) == UserFrame()
  }

  lemma LoadedAndFramed(l: Layout, m: seq<Word>, m1: seq<Word>, m2: seq<Word>, image: seq<Byte>,
                        p: nat, c: nat, u: nat, d: nat)
    requires LayoutOk(l) && |m| == |m1| == |m2| == MEM_WORDS
    requires p < MAX_FRAMES && c < MAX_FRAMES && u < MAX_FRAMES && d < MAX_FRAMES
    requires p != c && p != d && c != d && Tb(l) + 1 !in {p, c, u, d}
    requires Elsewhere(l, m, m1, {d}) && InnerKept(m, m1, Tb(l) + 1) && Elsewhere(l, m1, m2, {d})
    requires UserMapped(l, m1, m2, d, c, u)
    ensures UserMemory(l, m, UserLoaded(m2, image, p, c), p, c, u, d)
  {
    PageWritten(m2, c, LoadedPage(m2, c, image));
    var m3 := Splice(m2, 1024 * c, LoadedPage(m2, c, image));
    FrameWritten(m3, p, UserFrame());
    var m4 := WithFrame(m3, TopFrame(0x1000 * p), UserFrame());
    hide Splice, WithFrame, LoadedPage, InitialFrame, MakeEntry, TopFrame, FrameAt, DirectoryOk, Entry;
    UserElsewhere(l, m, m1, m2, m3, m4, p, c, u, d);
    hide Elsewhere;
    assert 0x1000 * d / 0x1000 == d;
    DirectoryKept(l, m2, m3, 0x1000 * d, true);
    DirectoryKept(l, m3, m4, 0x1000 * d, true);
    assert SamePage(m2, m3, Tb(l) + 1) && SamePage(m3, m4, Tb(l) + 1);
  }

  /** Allocator and memory once the four pages are taken and mapped. */
  lemma UserSpaceShape(l: Layout, t: Table) returns (p: nat, c: nat, u: nat, d: nat)
    requires TableOk(t) && LayoutOk(l) && PoolAbove(l, t.pool) && DirectoryOk(l, t.mem, l.pageDirectory, false)
    requires |t.pool.free| >= 4
    ensures {p, c, u, d} <= t.pool.free && p != c && p != u && p != d && c != u && c != d && u != d
    ensures p < MAX_FRAMES && c < MAX_FRAMES && u < MAX_FRAMES && d < MAX_FRAMES && Tb(l) + 1 !in {p, c, u, d}
    ensures var m1 := UserPagesTaken(l, t).1;
            var (pool, m2, pages) := UserSpace(l, t);
            && pool == t.pool.(free := t.pool.free - {p, c, u, d})
            && pages == UserPages(0x1000 * p, 0x1000 * c, 0x1000 * u, 0x1000 * d)
            && Elsewhere(l, t.mem, m1, {d}) && InnerKept(t.mem, m1, Tb(l) + 1) && Elsewhere(l, m1, m2, {d})
            && UserMapped(l, m1, m2, d, c, u)
  {
    p, c, u, d := FourPages(l, t);
    var m1 := UserPagesTaken(l, t).1;
    PageWritten(t.mem, d, DirectoryCopy(t.mem, Pd(l), d));
    CopyOk(l, t.mem, d);
    hide Splice, DirectoryCopy, MapIn, MakeEntry, UserPagesTaken, DirectoryOk, Entry;
    TwoMappings(l, t.pool.(free := t.pool.free - {p, c, u, d}), m1, d, c, u);
  }

  /** Memory after the image is copied to page c and the first context to the top of page p. */
  ghost function UserLoaded(m: seq<Word>, image: seq<Byte>, p: nat, c: nat): (r: seq<Word>)
    requires |m| == MEM_WORDS && p < MAX_FRAMES && c < MAX_FRAMES
    ensures |r| == MEM_WORDS
  {
    WithFrame(Splice(m, 1024 * c, LoadedPage(m, c, image)), TopFrame(0x1000 * p), UserFrame())
  }

  lemma CreatedUserFills(l: Layout, t: Table, image: Option<seq<Byte>>, p: nat, c: nat, u: nat, d: nat)
    requires TableOk(t) && Pd(l) < MAX_FRAMES && CreatedUser(l, t, image).1.Some? && image.Some?
    requires p < MAX_FRAMES && c < MAX_FRAMES && u < MAX_FRAMES && d < MAX_FRAMES
    requires UserSpace(l, t).0 == t.pool.(free := t.pool.free - {p, c, u, d})
    requires UserSpace(l, t).2 == UserPages(0x1000 * p, 0x1000 * c, 0x1000 * u, 0x1000 * d)
    ensures CreatedUser(l, t, image).0 == FilledWith(t, UserLoaded(UserSpace(l, t).1, image.value, p, c), p, c, u, d)
  {
    hide Splice, WithFrame, LoadedPage, UserSpace, UserFrame, TopFrame, FirstReusable, Wrap32;
    assert 0x1000 * c / 0x1000 == c;
  }

  /** The table process_create_user makes, on the four pages it takes. */
  lemma CreatedUserShape(l: Layout, t: Table, image: Option<seq<Byte>>) returns (p: nat, c: nat, u: nat, d: nat)
    requires TableOk(t) && LayoutOk(l) && PoolAbove(l, t.pool) && DirectoryOk(l, t.mem, l.pageDirectory, false)
    requires CreatedUser(l, t, image).1.Some?
    ensures {p, c, u, d} <= t.pool.free && p != c && p != u && p != d && c != u && c != d && u != d
    ensures p < MAX_FRAMES && c < MAX_FRAMES && u < MAX_FRAMES && d < MAX_FRAMES
    ensures UserMemory(l, t.mem, CreatedUser(l, t, image).0.mem, p, c, u, d)
    ensures CreatedUser(l, t, image).0 == FilledWith(t, CreatedUser(l, t, image).0.mem, p, c, u, d)
  {
    hide CreatedUser, UserSpace, UserPagesTaken, DirectoryOk, UserMapped, InnerKept, Elsewhere, UserMemory, FilledWith;
    hide UserLoaded, LayoutOk, PoolAbove;
    CreatedUserNeeds(l, t, image);
    p, c, u, d := UserSpaceShape(l, t);
    var m2 := UserSpace(l, t).1;
    CreatedUserFills(l, t, image, p, c, u, d);
    FilledMemory(t, UserLoaded(m2, image.value, p, c), p, c, u, d);
    LoadedAndFramed(l, t.mem, UserPagesTaken(l, t).1, m2, image.value, p, c, u, d);
  }

  lemma CreatedUserNeeds(l: Layout, t: Table, image: Option<seq<Byte>>)
    requires TableOk(t) && Pd(l) < MAX_FRAMES && CreatedUser(l, t, image).1.Some?
    ensures image.Some? && 0 < |image.value| <= 4096 && FirstReusable(t.slots, 1).Some? && |t.pool.free| >= 4
  {
  }

  lemma FilledMemory(t: Table, m: seq<Word>, p: nat, c: nat, u: nat, d: nat)
    requires TableOk(t) && p < MAX_FRAMES && c < MAX_FRAMES && u < MAX_FRAMES && d < MAX_FRAMES
    requires FirstReusable(t.slots, 1).Some?
    ensures FilledWith(t, m, p, c, u, d).mem == m
  {
    hide FirstReusable, TopFrame, Wrap32;
  }

  /** t with the first reusable slot given pages p, c, u and d and memory m. */
  ghost function FilledWith(t: Table, m: seq<Word>, p: nat, c: nat, u: nat, d: nat): Table
    requires TableOk(t) && p < MAX_FRAMES && c < MAX_FRAMES && u < MAX_FRAMES && d < MAX_FRAMES
  {
    var i := FirstReusable(t.slots, 1);
    if i == None then t
    else t.(pool := t.pool.(free := t.pool.free - {p, c, u, d}), mem := m,
            slots := t.slots[i.value := UserSlot(t.nextPid, p, c, u, d)], nextPid := Wrap32(t.nextPid + 1))
  }

  lemma FilledAdmits(l: Layout, t: Table, m: seq<Word>, i: nat, p: nat, c: nat, u: nat, d: nat)
    requires TableOk(t) && LayoutOk(l) && FirstReusable(t.slots, 1) == Some(i)
    requires {p, c, u, d} <= t.pool.free && p != c && p != u && p != d && c != u && c != d && u != d
    requires p < MAX_FRAMES && c < MAX_FRAMES && u < MAX_FRAMES && d < MAX_FRAMES
    requires UserMemory(l, t.mem, m, p, c, u, d)
    ensures Admits(l, t, FilledWith(t, m, p, c, u, d), i, UserFrame())
    ensures FilledWith(t, m, p, c, u, d).slots[i].user
  {
    hide InitialFrame, TopFrame, MakeEntry, Elsewhere, DirectoryOk, InnerKept;
    UserSlotPages(t.nextPid, p, c, u, d);
    var t' := FilledWith(t, m, p, c, u, d);
    assert t'.slots[i] == UserSlot(t.nextPid, p, c, u, d);
    hide FirstReusable, PagesOf, WellFormed;
  }

  lemma CreatedUserAdmits(l: Layout, t: Table, image: Option<seq<Byte>>)
    requires TableOk(t) && LayoutOk(l) && PoolAbove(l, t.pool) && DirectoryOk(l, t.mem, l.pageDirectory, false)
    requires CreatedUser(l, t, image).1.Some?
    ensures FirstReusable(t.slots, 1).Some?
    ensures var i := FirstReusable(t.slots, 1).value;
            var t' := CreatedUser(l, t, image).0;
            Admits(l, t, t', i, UserFrame()) && t'.slots[i].user
  {
    var p, c, u, d := CreatedUserShape(l, t, image);
    FilledAdmits(l, t, CreatedUser(l, t, image).0.mem, FirstReusable(t.slots, 1).value, p, c, u, d);
  }

  /** Only the four pages and the shared table change along the way. */
  lemma UserElsewhere(l: Layout, m: seq<Word>, m1: seq<Word>, m2: seq<Word>, m3: seq<Word>, m4: seq<Word>,
                      p: nat, c: nat, u: nat, d: nat)
    requires |m| == |m1| == |m2| == |m3| == |m4| == MEM_WORDS
    requires Elsewhere(l, m, m1, {d}) && Elsewhere(l, m1, m2, {d}) && Elsewhere(l, m2, m3, {c})
    requires Elsewhere(l, m3, m4, {p})
    ensures Elsewhere(l, m, m4, {p, c, u, d})
  {
    forall x, k | 0 <= x < MAX_FRAMES && 0 <= k < 1024 && x !in {p, c, u, d} && x != Tb(l) + 1
      ensures Entry(m4, x, k) == Entry(m, x, k)
    {
      assert Entry(m4, x, k) == Entry(m3, x, k) == Entry(m2, x, k) == Entry(m1, x, k) == Entry(m, x, k);
    }
  }
}
