/** Round-robin scheduling: which context an interrupt resumes, in which address space. */
module Scheduler {
  import opened Machine
  import opened Memory
  import opened Paging
  import opened Process

  /** The resumed context, and the directory to load first; 0 keeps the current one. */
  datatype Resume = Resume(context: Word, directory: Word)

  ghost predicate Switches(t: Table)
    requires TableOk(t)
  {
    |Runnables(t.slots)| >= 2 || t.slots[t.running].state == Zombie
  }

  /** The table after schedule, and what it resumes. */
  ghost function Scheduled(l: Layout, t: Table, context: Word): (r: (Table, Resume))
    requires TableOk(t) && FrameAddress(context)
  {
    if !Switches(t) then (t, Resume(context, 0))
    else
      var t' := RoundRobin(l, ContextSaved(l, t, context));
      var next := t'.slots[t'.running];
      if next.context == 0 || next.context == context then (t', Resume(context, 0))
      else (t', Resume(next.context, next.directory))
  }

  /** When a switch is due, every pointer it follows leads to its page. */
  ghost predicate ScheduleServed(l: Layout, t: Table, cr3: Word, context: Word)
    requires TableOk(t) && FrameAddress(context)
  {
    Switches(t) ==> SaveServed(l, t, cr3, context)
  }

  class RoundRobinScheduler {
    const processes: ProcessTable
    /** scheduler_next_directory */
    var nextDirectory: Word
    var quantumTicks: Word

    constructor (processes: ProcessTable)
      ensures this.processes == processes
    {
      this.processes := processes;
      nextDirectory, quantumTicks := 0, 0;
    }

    /** scheduler_init */
    method Init()
      requires processes.Valid()
      requires FrameServed(processes.tables.ram[..], processes.tables.cr3, BootstrapContext(processes.layout))
      modifies this, processes, processes.slots, processes.tables.ram
      ensures processes.Valid()
      ensures processes.View() == SystemStarted(processes.layout, old(processes.View()))
      ensures nextDirectory == 0 && quantumTicks == 0
    {
      processes.SystemInit();
      nextDirectory, quantumTicks := 0, 0;
    }

    method Schedule(context: Word) returns (resumed: Word)
      requires processes.Valid() && FrameAddress(context)
      requires FrameAddress(processes.slots[processes.running].context)
      requires ScheduleServed(processes.layout, processes.View(), processes.tables.cr3, context)
      modifies this`nextDirectory, processes, processes.slots, processes.tables.ram
      ensures processes.Valid()
      ensures var (t, r) := Scheduled(processes.layout, old(processes.View()), context);
              processes.View() == t && resumed == r.context && nextDirectory == r.directory
    {
      hide ContextSaved, RoundRobin, Runnables;
      nextDirectory := 0;
      var count := processes.Count();
      if count < 2 && processes.slots[processes.running].state != Zombie {
        return context;
      }
      processes.SaveContext(context);
      processes.NextRoundRobin();
      var next := processes.slots[processes.running];
      if next.context == 0 {
        return context;
      }
      if next.context != context {
        nextDirectory := next.directory;
        return next.context;
      }
      return context;
    }

    /** scheduler_tick */
    method Tick(context: Word) returns (resumed: Word)
      requires processes.Valid() && FrameAddress(context)
      requires FrameAddress(processes.slots[processes.running].context)
      requires ScheduleServed(processes.layout, processes.View(), processes.tables.cr3, context)
      modifies this, processes, processes.slots, processes.tables.ram
      ensures processes.Valid() && quantumTicks == Wrap32(old(quantumTicks) + 1)
      ensures var (t, r) := Scheduled(processes.layout, old(processes.View()), context);
              processes.View() == t && resumed == r.context && nextDirectory == r.directory
    {
      quantumTicks := Wrap32(quantumTicks + 1);
      resumed := Schedule(context);
    }

    /** scheduler_yield */
    method Yield(context: Word) returns (resumed: Word)
      requires processes.Valid() && FrameAddress(context)
      requires FrameAddress(processes.slots[processes.running].context)
      requires ScheduleServed(processes.layout, processes.View(), processes.tables.cr3, context)
      modifies this`nextDirectory, processes, processes.slots, processes.tables.ram
      ensures processes.Valid()
      ensures var (t, r) := Scheduled(processes.layout, old(processes.View()), context);
              processes.View() == t && resumed == r.context && nextDirectory == r.directory
    {
      resumed := Schedule(context);
    }
  }
}
