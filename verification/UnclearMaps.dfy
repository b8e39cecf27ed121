/**
 Boot maps that are not clear: given pages and slots enough, creating processes
 leads to a creation that faults or goes astray.
 */
module UnclearMaps {
  import opened Options
  import opened Machine
  import opened Memory
  import opened Pmm
  import opened Paging
  import opened Process
  import opened Runs
  import opened Creation
  import opened Dispatching
  import opened Pointers
  import opened KernelTheorems
  import opened PointerTheorems

  ghost function UpTo(s: set<nat>, x: nat): set<nat> {
    set p | p in s && p <= x
  }

  ghost function Above(s: set<nat>, x: nat): set<nat> {
    set p | p in s && p > x
  }

  /** Two lowest pages taken, neither of them x: both were below x. */
  lemma TwoBelow(s: set<nat>, x: nat)
    requires x in s && |s| >= 2
    ensures |Lowest(s, 2)| == 2
    ensures var pages := Lowest(s, 2);
            var rest := s - {pages[0], pages[1]};
            && pages[0] != pages[1] && pages[0] in s && pages[1] in s && pages[0] <= x
            && (x in rest ==> Above(rest, x) == Above(s, x) && |UpTo(rest, x)| == |UpTo(s, x)| - 2)
            && (x !in rest ==> |rest| >= |Above(s, x)| - 1)
  {
    var p := Least(s);
    RemoveOne(s, p);
    var q := Least(s - {p});
    LowestNext(s, 2);
    LowestNext(s - {p}, 1);
    hide Lowest, Least;
    var rest := s - {p, q};
    assert Lowest(s, 2)[0] == p && Lowest(s, 2)[1] == q;
    if x in rest {
      assert x in s - {p} && p <= x && q <= x;
      assert UpTo(s, x) == UpTo(rest, x) + {p, q};
      assert Above(rest, x) == Above(s, x);
    } else {
      assert Above(s, x) - {q} <= rest;
      BoundedBySubset(Above(s, x) - {q}, rest);
    }
  }

  /** Slots 1 up to k hold processes that have not exited, the others nothing; no user process yet. */
  ghost predicate Filling(s: System, k: nat) {
    && 1 <= k <= |s.t.slots| && s.users == 0 && s.t.running == 0 && s.t.slots[0].state == Running
    && (forall i :: 1 <= i < k ==> s.t.slots[i].state == Ready)
    && (forall i :: k <= i < |s.t.slots| ==> s.t.slots[i].state == Unused)
  }

  lemma NextSlot(s: System, k: nat)
    requires Filling(s, k) && k < |s.t.slots|
    ensures FirstReusable(s.t.slots, 1) == Some(k) && !NoSlotLeft(s.t)
  {
    assert Reusable(s.t.slots[k]);
  }

  ghost predicate PagesAndSlots(s: System, k: nat, x: nat) {
    && x in s.t.pool.free && |Above(s.t.pool.free, x)| >= 5
    && |s.t.slots| - k >= (|UpTo(s.t.pool.free, x)| + 1) / 2 + 1
  }

  /** Process creation that fails on an access. */
  ghost predicate Fails(l: Layout, s: System, e: Event) {
    && Shape(l, s) && s.t.slots[s.t.running].state == Running && (e.CreateKernel? || e.CreateUser?)
    && !Sound(l, s, e)
  }

  /** A process_create in such a state fails on an access, or takes the two lowest free pages. */
  lemma FillOne(l: Layout, s: System, k: nat, x: nat)
    requires Inv(l, s) && Filling(s, k) && PagesAndSlots(s, k, x)
    ensures Shape(l, s) && |Lowest(s.t.pool.free, 2)| == 2 && |s.t.pool.free| >= 6 && 1 <= k < |s.t.slots| - 1
    ensures Sound(l, s, CreateKernel(1, 0)) || Fails(l, s, CreateKernel(1, 0))
    ensures var s', pages := Step(l, s, CreateKernel(1, 0)), Lowest(s.t.pool.free, 2);
            Sound(l, s, CreateKernel(1, 0)) ==> HasKernelPages(s, s', k, pages[0], pages[1]) && Filling(s', k + 1)
  {
    hide Inv, Sound, Lowest, Least, LayoutOk, Created, NoSlotLeft, Effect;
    Basics(l, s);
    var free := s.t.pool.free;
    assert x in UpTo(free, x);
    assert Above(free, x) + {x} <= free;
    BoundedBySubset(Above(free, x) + {x}, free);
    NextSlot(s, k);
    CreatedTakesTwo(l, s.t, 1, 0);
    KernelCreationSound(l, s, 1, 0);
  }

  /** With x as a stack or directory of another slot, creating a user process goes astray. */
  lemma AstrayUser(l: Layout, s: System, k: nat, x: nat)
    requires Inv(l, s) && Filling(s, k + 1) && 1 <= k && k + 1 < |s.t.slots| && |s.t.pool.free| >= 4 && !Clear(x)
    requires x == s.t.slots[k].stackBase / 0x1000 || x == s.t.slots[k].directory / 0x1000
    ensures Fails(l, s, CreateUser(Some([0])))
  {
    hide Inv, Sound, Lowest, LayoutOk, CreatedUser, NoSlotLeft, Effect, Clear, HasUserPages;
    Basics(l, s);
    NextSlot(s, k + 1);
    CreatedUserTakesFour(l, s.t, Some([0]));
    UserCreationSound(l, s, Some([0]));
    assert InUse(s.t, k) && !OthersClear(s.t, k + 1);
  }

  /** Kernel threads are created until one fails or has page x; then a user process fails. */
  lemma {:induction false} FillUntilFailure(l: Layout, s: System, k: nat, x: nat)
    returns (events: seq<Event>, e: Event)
    requires Inv(l, s) && Filling(s, k) && PagesAndSlots(s, k, x) && !Clear(x)
    ensures Fails(l, Run(l, s, events), e)
    decreases |s.t.slots| - k
  {
    hide Inv, Sound, Lowest, Step, Fails, Clear, Filling;
    var create := CreateKernel(1, 0);
    FillOne(l, s, k, x);
    TwoBelow(s.t.pool.free, x);
    if Fails(l, s, create) {
      return [], create;
    }
    var s' := Step(l, s, create);
    StepKeepsInv(l, s, create);
    if x in s'.t.pool.free {
      events, e := FillUntilFailure(l, s', k + 1, x);
    } else {
      events, e := [], CreateUser(Some([0]));
      assert 0x1000 * x / 0x1000 == x;
      AstrayUser(l, s', k, x);
    }
    assert ([create] + events)[0] == create && ([create] + events)[1..] == events;
    events := [create] + events;
  }

  /**
   A boot map with a page that is not clear, five free pages above it and a
   table with a slot for every two free pages up to it and two more: some
   sequence of process creations ends in one that faults or goes astray.
   */
  lemma UnclearMapFails(l: Layout, info: BootInfo, mem: seq<Word>, n: nat, x: nat)
    returns (events: seq<Event>, e: Event)
    requires Bootable(l, mem, n) && x in BootFree(info, l.kernelEnd) && !Clear(x)
    requires |Above(BootFree(info, l.kernelEnd), x)| >= 5
    requires n >= (|UpTo(BootFree(info, l.kernelEnd), x)| + 1) / 2 + 2
    ensures Fails(l, Run(l, Boot(l, info, mem, n), events), e)
  {
    hide Inv, PagingStarted, WithFrame, BootFree, Clear, Fails, Run;
    var s := Boot(l, info, mem, n);
    assert s.t.slots[0] == BootstrapSlot(l) && forall i :: 1 <= i < n ==> s.t.slots[i] == EMPTY_SLOT;
    events, e := FillUntilFailure(l, s, 1, x);
  }
}
