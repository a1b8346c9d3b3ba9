/** The scheduler: a table of 16 entries updated in place. */
module Schedulers {
  import opened Scheduling

  const E_TOO_MANY_TASKS := -1

  class Scheduler {
    const table: array<Entry>
    var current: int
    var num: int
    var currentPid: int

    ghost predicate Valid()
      reads this, table
    {
      table.Length == MAX_SCHEDULED && 0 <= num && Inv(Abs())
    }

    ghost function Abs(): Sched
      reads this, table
      requires 0 <= num
    {
      Sched(table[..], current, num, currentPid)
    }

    /** Takes over whatever the table's memory holds; only the states are set. */
    constructor (memory: seq<Entry>)
      requires |memory| == MAX_SCHEDULED
      ensures Valid() && fresh(table)
      ensures num == 0 && current == -1
    {
      table := new Entry[MAX_SCHEDULED](i requires 0 <= i < MAX_SCHEDULED => memory[i]);
      current := -1;
      num := 0;
      currentPid := 0;
      new;
      for i := 0 to MAX_SCHEDULED
        invariant num == 0 && current == -1
        invariant forall j :: 0 <= j < i ==> table[j].state == Free
      {
        table[i] := table[i].(state := Free);
      }
    }

    /** The first free slot, or -1. */
    method Allocate() returns (s: int)
      requires Valid()
      ensures s == if num < MAX_SCHEDULED then num else -1
    {
      for i := 0 to MAX_SCHEDULED
        invariant forall j :: 0 <= j < i ==> Used(Abs(), j)
      {
        if table[i].state == Free {
          assert !Used(Abs(), i);
          assert i > 0 ==> Used(Abs(), i - 1);
          return i;
        }
      }
      assert Used(Abs(), MAX_SCHEDULED - 1);
      return -1;
    }

    /** The first slot with the given pid, or -1. */
    method EntryOf(pid: int) returns (s: int)
      requires Valid()
      ensures var i := SlotOf(Abs().table, pid);
              s == if i < MAX_SCHEDULED then i else -1
    {
      ghost var k := SlotOf(table[..], pid);
      for i := 0 to MAX_SCHEDULED
        invariant i <= k
      {
        if table[i].pid == pid { return i; }
      }
      return -1;
    }

    method BroadcastEvent(event: int, exclude: int)
      requires table.Length == MAX_SCHEDULED
      modifies table
      ensures table[..] == Broadcasted(old(table[..]), event, exclude)
    {
      for i := 0 to MAX_SCHEDULED
        invariant forall j :: 0 <= j < MAX_SCHEDULED ==>
                    table[j] == if j < i then Broadcasted(old(table[..]), event, exclude)[j] else old(table[..])[j]
      {
        if table[i].pid == exclude { continue; }
        if table[i].state != Blocked { continue; }
        if table[i].event != event { continue; }
        table[i] := table[i].(state := Ready, event := EVENT_NO_EVENT);
      }
    }

    method AddTask(pid: int) returns (e: int)
      requires Valid()
      modifies this`num, table
      ensures Valid() && Step(old(Abs()), Add(pid), Abs())
      ensures e == if old(num) < MAX_SCHEDULED then 0 else E_TOO_MANY_TASKS
    {
      ghost var before := Abs();
      var s := Allocate();
      if s < 0 { return E_TOO_MANY_TASKS; }
      table[s] := table[s].(state := Ready, event := EVENT_NO_EVENT, pid := pid);
      num := num + 1;
      assert table[..] == Added(before, pid).table;
      StepKeepsInv(before, Add(pid), Abs());
      return 0;
    }

    method State(pid: int) returns (t: TaskState)
      requires Valid() && SlotOf(Abs().table, pid) < num
      ensures InState(Abs(), SlotOf(Abs().table, pid), t)
    {
      var s := EntryOf(pid);
      return table[s].state;
    }

    method ExitTask(pid: int, code: int)
      requires Valid() && SlotOf(Abs().table, pid) < num
      modifies table
      ensures Valid() && Step(old(Abs()), Exit(pid, code), Abs())
    {
      ghost var before := Abs();
      var s := EntryOf(pid);
      table[s] := table[s].(state := Finished);
      table[s] := table[s].(exitcode := code);
      assert table[..] == before.table[s := before.table[s].(state := Finished, exitcode := code)];
      BroadcastEvent(EVENT_PROCESS_FINISHED, pid);
      StepKeepsInv(before, Exit(pid, code), Abs());
    }

    method Exitcode(pid: int) returns (code: int)
      requires Valid() && SlotOf(Abs().table, pid) < num
      ensures code == Abs().table[SlotOf(Abs().table, pid)].exitcode
    {
      var s := EntryOf(pid);
      return table[s].exitcode;
    }

    /** Goes round the table, from the slot after the current one, to the first ready task. */
    method Search(ghost before: Sched)
      requires Inv(before) && CanTick(before)
      requires table[..] == Demoted(before) && num == before.num && current == before.current
      modifies this`current
      ensures 0 <= current < table.Length && IsNext(table[..], before.current, current)
    {
      InvBounds(before);
      hide Inv, Candidate, Hits, CanTick, Demoted, IsNext;
      ghost var t, c := table[..], current;
      SearchEndsExactly(before);
      ghost var last :| 0 < last && Hits(t, num, c, last);
      ghost var n := 0;
      CandidateStep(t, num, c, 0);
      while true
        invariant 0 <= n < last && current == Candidate(num, c, n)
        invariant forall m :: 0 < m <= n ==> !Hits(t, num, c, m)
        decreases last - n
      {
        CandidateInTable(num, c, n + 1);
        CandidateStep(t, num, c, n + 1);
        current := current + 1;
        if current >= num { current := 0; }
        n := n + 1;
        if table[current].state == Ready { break; }
      }
      FirstHitIsNext(before, n);
    }

    /** Gives the processor to the next ready task. */
    method Next() returns (pid: int)
      requires Valid() && CanTick(Abs())
      modifies this`current, this`currentPid, table
      ensures Valid() && Step(old(Abs()), Tick, Abs()) && pid == currentPid == table[current].pid
    {
      ghost var before := Abs();
      InvBounds(before);
      hide Inv, IsNext, CanTick;
      if current >= 0 && table[current].state == Running {
        table[current] := table[current].(state := Ready);
      }
      assert table[..] == Demoted(before);
      Search(before);
      table[current] := table[current].(state := Running);
      currentPid := table[current].pid;
      pid := currentPid;
      assert table[..] == Demoted(before)[current := Demoted(before)[current].(state := Running)];
      StepKeepsInv(before, Tick, Abs());
    }

    method BlockCurrentTask(event: int)
      requires Valid() && 0 <= current
      modifies table
      ensures Valid() && Step(old(Abs()), BlockCurrent(event), Abs())
    {
      ghost var before := Abs();
      table[current] := table[current].(event := event);
      table[current] := table[current].(state := Blocked);
      assert table[..] == BlockedAt(before, current, event).table;
      StepKeepsInv(before, BlockCurrent(event), Abs());
    }

    method BlockTask(pid: int, event: int)
      requires Valid() && SlotOf(Abs().table, pid) < num
      modifies table
      ensures Valid() && Step(old(Abs()), Block(pid, event), Abs())
    {
      ghost var before := Abs();
      var s := EntryOf(pid);
      table[s] := table[s].(event := event);
      table[s] := table[s].(state := Blocked);
      assert table[..] == BlockedAt(before, s, event).table;
      StepKeepsInv(before, Block(pid, event), Abs());
    }

    method Event(pid: int) returns (event: int)
      requires Valid() && SlotOf(Abs().table, pid) < num
      ensures event == Abs().table[SlotOf(Abs().table, pid)].event
    {
      var s := EntryOf(pid);
      return table[s].event;
    }
  }
}
