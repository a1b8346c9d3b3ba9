/** Round-robin scheduling: the table as a value, the operations on it, and what every run keeps. */
module Scheduling {

  const MAX_SCHEDULED := 16
  const EVENT_NO_EVENT := 0
  const EVENT_PROCESS_FINISHED := 1

  datatype TaskState = Running | Ready | Finished | Free | Blocked

  datatype Entry = Entry(state: TaskState, event: int, pid: int, exitcode: int)

  /** The table, the scheduled slot (-1 before the first tick), the used slots, the cached pid. */
  datatype Sched = Sched(table: seq<Entry>, current: int, num: nat, pid: int)

  predicate Used(s: Sched, i: int) {
    0 <= i < |s.table| && s.table[i].state != Free
  }

  predicate InState(s: Sched, i: int, t: TaskState) {
    0 <= i < |s.table| && s.table[i].state == t
  }

  /** The invariant of every run: used slots form a prefix, and only the current slot may be running. */
  ghost predicate Inv(s: Sched) {
    && |s.table| == MAX_SCHEDULED && s.num <= MAX_SCHEDULED
    && -1 <= s.current && (s.current < s.num || s.current == -1)
    && (forall i :: 0 <= i < MAX_SCHEDULED ==> (Used(s, i) <==> i < s.num))
    && (forall i :: InState(s, i, Running) ==> i == s.current)
  }

  /** No pid has been added twice. */
  ghost predicate Distinct(s: Sched) {
    s.num <= |s.table| && forall i, j :: 0 <= i < j < s.num ==> s.table[i].pid != s.table[j].pid
  }

  // ----- Operations -----

  /** The first slot with a pid, used or not; the table's length if none. */
  function SlotOf(table: seq<Entry>, pid: int): (i: nat)
    ensures i <= |table|
    ensures i < |table| ==> table[i].pid == pid
    ensures forall j :: 0 <= j < i ==> table[j].pid != pid
  {
    if table == [] || table[0].pid == pid then 0 else 1 + SlotOf(table[1..], pid)
  }

  /** A scheduled pid is found in its own slot: stale pids lie after the used prefix. */
  lemma SlotOfUsed(s: Sched, i: nat)
    requires Inv(s) && Distinct(s) && i < s.num
    ensures SlotOf(s.table, s.table[i].pid) == i
  {
    var j := SlotOf(s.table, s.table[i].pid);
    assert j <= i;
  }

  function Added(s: Sched, pid: int): Sched
    requires s.num < |s.table|
  {
    s.(table := s.table[s.num := s.table[s.num].(state := Ready, event := EVENT_NO_EVENT, pid := pid)], num := s.num + 1)
  }

  predicate Wakes(e: Entry, event: int, exclude: int) {
    e.pid != exclude && e.state == Blocked && e.event == event
  }

  /** An event readies every task blocked on it, except the excluded one. */
  function Broadcasted(table: seq<Entry>, event: int, exclude: int): (r: seq<Entry>)
    ensures |r| == |table|
  {
    seq(|table|, i requires 0 <= i < |table| =>
      if Wakes(table[i], event, exclude) then table[i].(state := Ready, event := EVENT_NO_EVENT) else table[i])
  }

  function Exited(s: Sched, pid: int, code: int): Sched
    requires SlotOf(s.table, pid) < |s.table|
  {
    var i := SlotOf(s.table, pid);
    s.(table := Broadcasted(s.table[i := s.table[i].(state := Finished, exitcode := code)], EVENT_PROCESS_FINISHED, pid))
  }

  function BlockedAt(s: Sched, i: nat, event: int): Sched
    requires i < |s.table|
  {
    s.(table := s.table[i := s.table[i].(event := event, state := Blocked)])
  }

  /** The running task, if it still runs, becomes ready. */
  function Demoted(s: Sched): (table: seq<Entry>)
    ensures |table| == |s.table|
  {
    if InState(s, s.current, Running) then s.table[s.current := s.table[s.current].(state := Ready)] else s.table
  }

  /** The slot tried after `c`. */
  function Following(num: nat, c: int): int {
    if c + 1 >= num then 0 else c + 1
  }

  /** How many slots lie strictly between, going round the whole table from `c` up to `i`. */
  function Distance(c: int, i: int): int {
    if c < i then i - c - 1 else i - c - 1 + MAX_SCHEDULED
  }

  /** `j` is the first ready slot going round from the one after `c`. */
  ghost predicate IsNext(table: seq<Entry>, c: int, j: int) {
    && 0 <= j < |table| && table[j].state == Ready
    && (forall i :: 0 <= i < |table| && table[i].state == Ready ==> Distance(c, j) <= Distance(c, i))
  }

  /** The search for a ready task can succeed. */
  ghost predicate CanTick(s: Sched) {
    exists i :: InState(s, i, Ready) || (i == s.current && InState(s, i, Running))
  }

  ghost predicate Ticked(s: Sched, s': Sched) {
    && |s'.table| == |s.table|
    && IsNext(Demoted(s), s.current, s'.current)
    && s' == s.(table := Demoted(s)[s'.current := Demoted(s)[s'.current].(state := Running)],
                current := s'.current, pid := s.table[s'.current].pid)
  }

  /** The slot tried at the n-th step of the search. */
  function Candidate(num: nat, c: int, n: nat): int {
    if n == 0 then c else Following(num, Candidate(num, c, n - 1))
  }

  lemma {:induction false} CandidateInTable(num: nat, c: int, n: nat)
    requires -1 <= c < MAX_SCHEDULED && num <= MAX_SCHEDULED
    ensures -1 <= Candidate(num, c, n) < MAX_SCHEDULED
    ensures 0 < n ==> 0 <= Candidate(num, c, n)
    ensures 0 < n && c < num ==> Candidate(num, c, n) < num || Candidate(num, c, n) == 0
  {
    if 0 < n {
      CandidateInTable(num, c, n - 1);
    }
  }

  lemma {:induction false} CandidateAhead(num: nat, c: int, n: nat)
    requires -1 <= c && c + n < num
    ensures Candidate(num, c, n) == c + n
  {
    if 0 < n {
      CandidateAhead(num, c, n - 1);
    }
  }

  lemma {:induction false} CandidateAfter(num: nat, c: int, m: nat, n: nat)
    ensures Candidate(num, c, m + n) == Candidate(num, Candidate(num, c, m), n)
    decreases n
  {
    if 0 < n {
      CandidateAfter(num, c, m, n - 1);
    }
  }

  /** Every used slot is tried. */
  lemma CandidateReaches(num: nat, c: int, i: nat) returns (n: nat)
    requires -1 <= c < num && i < num
    ensures 0 < n && Candidate(num, c, n) == i
    ensures n == if c < i then i - c else num - c + i
  {
    if c < i {
      CandidateAhead(num, c, i - c);
      n := i - c;
    } else {
      CandidateAhead(num, c, num - 1 - c);
      CandidateAfter(num, c, num - 1 - c, 1);
      assert Candidate(num, num - 1, 1) == Following(num, Candidate(num, num - 1, 0));
      CandidateAhead(num, 0, i);
      CandidateAfter(num, c, num - c, i);
      n := num - c + i;
    }
  }

  ghost predicate Hits(table: seq<Entry>, num: nat, c: int, n: nat) {
    0 <= Candidate(num, c, n) < |table| && table[Candidate(num, c, n)].state == Ready
  }

  /** The search meets a ready task at some step exactly when some task is ready, or the current one
      is running; otherwise it goes round for ever. */
  lemma SearchEndsExactly(s: Sched)
    requires Inv(s)
    ensures (exists n :: 0 < n && Hits(Demoted(s), s.num, s.current, n)) <==> CanTick(s)
  {
    if CanTick(s) {
      var i :| InState(s, i, Ready) || (i == s.current && InState(s, i, Running));
      assert Used(s, i);
      var n := CandidateReaches(s.num, s.current, i);
      assert Hits(Demoted(s), s.num, s.current, n);
    }
    if n :| 0 < n && Hits(Demoted(s), s.num, s.current, n) {
      var i := Candidate(s.num, s.current, n);
      assert InState(s, i, Ready) || (i == s.current && InState(s, i, Running));
    }
  }

  /** The first hit of the search is the first ready slot going round. */
  lemma FirstHitIsNext(s: Sched, n: nat)
    requires Inv(s) && 0 < n && Hits(Demoted(s), s.num, s.current, n)
    requires forall m :: 0 < m < n ==> !Hits(Demoted(s), s.num, s.current, m)
    ensures IsNext(Demoted(s), s.current, Candidate(s.num, s.current, n))
  {
    var table, c, j := Demoted(s), s.current, Candidate(s.num, s.current, n);
    assert Used(s, j);
    var nj := CandidateReaches(s.num, c, j);
    assert Hits(table, s.num, c, nj);
    CandidateValue(s.num, c, n);
    forall i | 0 <= i < |table| && table[i].state == Ready ensures Distance(c, j) <= Distance(c, i) {
      assert Used(s, i);
      var ni := CandidateReaches(s.num, c, i);
      assert Hits(table, s.num, c, ni);
    }
  }

  lemma CandidateValue(num: nat, c: int, n: nat)
    requires -1 <= c < num && n <= num
    ensures Candidate(num, c, n) == if c + n < num then c + n else c + n - num
  {
    if c + n < num {
      CandidateAhead(num, c, n);
    } else {
      var n' := CandidateReaches(num, c, c + n - num);
    }
  }

  // ----- Steps and runs -----

  datatype Op = Add(newPid: int) | Exit(pid: int, code: int) | BlockCurrent(event: int) | Block(pid: int, event: int) | Tick

  /** One step of the system: the calls a kernel makes, with the conditions under which it does. */
  ghost predicate Step(s: Sched, op: Op, s': Sched) {
    match op
    case Add(pid) =>
      s' == if s.num < |s.table| then Added(s, pid) else s
    case Exit(pid, code) =>
      SlotOf(s.table, pid) < s.num <= |s.table| && s' == Exited(s, pid, code)
    case BlockCurrent(event) =>
      0 <= s.current < s.num <= |s.table| && s' == BlockedAt(s, s.current, event)
    case Block(pid, event) =>
      var i := SlotOf(s.table, pid);
      i < s.num <= |s.table| && s' == BlockedAt(s, i, event)
    case Tick => Ticked(s, s')
  }

  lemma StepKeepsInv(s: Sched, op: Op, s': Sched)
    requires Inv(s) && Step(s, op, s')
    ensures Inv(s')
  {
    if op.Tick? {
      var j := s'.current;
      assert Used(s, j);
      forall i | InState(s', i, Running) ensures i == j {
        assert i != j ==> Demoted(s)[i].state == Running;
        assert i != s.current && i != j ==> InState(s, i, Running);
      }
    }
    if !op.Tick? {
      forall i | InState(s', i, Running) ensures i == s'.current {
        assert InState(s, i, Running);
      }
    }
    forall i | 0 <= i < MAX_SCHEDULED ensures Used(s', i) <==> i < s'.num {
      assert Used(s, i) <==> i < s.num;
    }
  }

  /** Pids stay distinct, unless one that is in use is added while there is room. */
  lemma StepKeepsDistinct(s: Sched, op: Op, s': Sched)
    requires Inv(s) && Step(s, op, s') && Distinct(s)
    ensures Distinct(s') <==> !(op.Add? && s.num < MAX_SCHEDULED && exists i :: Used(s, i) && s.table[i].pid == op.newPid)
  {
    assert forall i :: 0 <= i < s.num ==> Used(s, i);
    if op.Add? && s.num < MAX_SCHEDULED {
      assert forall i :: 0 <= i < s.num ==> s'.table[i] == s.table[i];
      assert s'.table[s.num].pid == op.newPid;
      if i :| Used(s, i) && s.table[i].pid == op.newPid {
        assert s'.table[i].pid == s'.table[s.num].pid;
      }
    }
  }

  lemma InvBounds(s: Sched)
    requires Inv(s)
    ensures -1 <= s.current < MAX_SCHEDULED && s.num <= MAX_SCHEDULED && (s.current == -1 || s.current < s.num)
  {
  }

  lemma CandidateStep(table: seq<Entry>, num: nat, c: int, n: nat)
    ensures Candidate(num, c, n) == if n == 0 then c else Following(num, Candidate(num, c, n - 1))
    ensures Hits(table, num, c, n)
            <==> 0 <= Candidate(num, c, n) < |table| && table[Candidate(num, c, n)].state == Ready
  {
  }

  /** A finished task stays finished, but for a call that blocks it, by its pid or as the current one. */
  lemma FinishedStays(s: Sched, op: Op, s': Sched, i: nat)
    requires Inv(s) && Step(s, op, s') && InState(s, i, Finished)
    ensures InState(s', i, Finished) <==>
              !(op.Block? && SlotOf(s.table, op.pid) == i) && !(op.BlockCurrent? && s.current == i)
  {
    assert Used(s, i);
  }

  /** An exit finishes its task and readies every other task that waits for a process to finish. */
  lemma ExitWakes(s: Sched, k: nat, code: int)
    requires Inv(s) && Distinct(s) && k < s.num
    ensures SlotOf(s.table, s.table[k].pid) == k
    ensures var s' := Exited(s, s.table[k].pid, code);
            && InState(s', k, Finished) && s'.table[k].exitcode == code
            && (forall i :: i != k && InState(s, i, Blocked) && s.table[i].event == EVENT_PROCESS_FINISHED ==>
                  InState(s', i, Ready))
            && (forall i :: 0 <= i < |s.table| && i != k ==>
                  s'.table[i] == s.table[i]
                  || (InState(s, i, Blocked) && s.table[i].event == EVENT_PROCESS_FINISHED))
  {
    SlotOfUsed(s, k);
    forall i | i != k && InState(s, i, Blocked) ensures s.table[i].pid != s.table[k].pid {
      assert Used(s, i);
    }
  }

  /** The states of a run, one more than its steps. */
  ghost predicate IsRun(states: seq<Sched>, ops: seq<Op>) {
    && |states| == |ops| + 1
    && Inv(states[0])
    && forall t :: 0 <= t < |ops| ==> Step(states[t], ops[t], states[t + 1])
  }

  lemma {:induction false} RunKeepsInv(states: seq<Sched>, ops: seq<Op>, t: nat)
    requires IsRun(states, ops) && t < |states|
    ensures Inv(states[t])
  {
    if 0 < t {
      RunKeepsInv(states, ops, t - 1);
      StepKeepsInv(states[t - 1], ops[t - 1], states[t]);
    }
  }

  /** Ticks among the steps from `a` up to `b`. */
  function Ticks(ops: seq<Op>, a: nat, b: nat): nat
    requires a <= b <= |ops|
    decreases b
  {
    if a == b then 0 else Ticks(ops, a, b - 1) + if ops[b - 1].Tick? then 1 else 0
  }

  /** The step exits or blocks a task with the pid of slot `i`, or blocks the slot, as the current one,
      although it does not run. */
  predicate Disturbs(s: Sched, op: Op, i: nat)
    requires i < |s.table|
  {
    || ((op.Exit? || op.Block?) && op.pid == s.table[i].pid)
    || (op.BlockCurrent? && s.current == i && s.table[i].state != Running)
  }

  /** A ready task either runs next or gets closer to its turn; nothing else moves its turn. */
  lemma CloserToTurn(s: Sched, op: Op, s': Sched, i: nat)
    requires Inv(s) && Step(s, op, s') && InState(s, i, Ready)
    requires !Disturbs(s, op, i)
    ensures s'.current != i || !op.Tick? ==>
              && InState(s', i, Ready) && s'.table[i].pid == s.table[i].pid
              && (op.Tick? ==> Distance(s'.current, i) < Distance(s.current, i))
              && (!op.Tick? ==> s'.current == s.current)
    ensures op.Tick? && s'.current == i ==> InState(s', i, Running)
  {
    assert Used(s, i);
    if op.Exit? || op.Block? {
      assert SlotOf(s.table, op.pid) != i;
    }
  }

  ghost predicate Undisturbed(states: seq<Sched>, ops: seq<Op>, i: nat) {
    |ops| <= |states| && forall t :: 0 <= t < |ops| ==> i < |states[t].table| && !Disturbs(states[t], ops[t], i)
  }

  /** While a ready task waits, each tick brings its turn closer. */
  lemma {:induction false} WaitingRun(states: seq<Sched>, ops: seq<Op>, i: nat, a: nat, b: nat)
    requires IsRun(states, ops) && a <= b <= |ops| && InState(states[a], i, Ready)
    requires Undisturbed(states, ops, i)
    requires forall t :: 0 <= t < |states| ==> !InState(states[t], i, Running)
    ensures InState(states[b], i, Ready) && states[b].table[i].pid == states[a].table[i].pid
    ensures Distance(states[b].current, i) + Ticks(ops, a, b) <= Distance(states[a].current, i)
    decreases b
  {
    hide Inv, Step, Disturbs, Distance;
    if a < b {
      WaitingRun(states, ops, i, a, b - 1);
      RunKeepsInv(states, ops, b - 1);
      assert Step(states[b - 1], ops[b - 1], states[b]);
      CloserToTurn(states[b - 1], ops[b - 1], states[b], i);
    }
  }

  /** Bounded waiting: in a run with at least 16 ticks, mixed with any other steps that do not exit or
      block it while it waits, a ready task gets to run. */
  lemma BoundedWaiting(states: seq<Sched>, ops: seq<Op>, i: nat)
    requires IsRun(states, ops) && InState(states[0], i, Ready)
    requires Undisturbed(states, ops, i)
    requires MAX_SCHEDULED <= Ticks(ops, 0, |ops|)
    ensures exists t :: 0 <= t < |states| && InState(states[t], i, Running)
  {
    assert Used(states[0], i);
    if forall t :: 0 <= t < |states| ==> !InState(states[t], i, Running) {
      WaitingRun(states, ops, i, 0, |ops|);
      RunKeepsInv(states, ops, |ops|);
    }
  }

  /** No overtaking twice: while a ready task waits, no other slot is scheduled a second time. */
  lemma TurnsDiffer(states: seq<Sched>, ops: seq<Op>, i: nat, t1: nat, t2: nat)
    requires IsRun(states, ops) && InState(states[0], i, Ready)
    requires Undisturbed(states, ops, i)
    requires forall t :: 0 <= t < |states| ==> !InState(states[t], i, Running)
    requires t1 < t2 < |ops| && ops[t1].Tick? && ops[t2].Tick?
    ensures states[t1 + 1].current != states[t2 + 1].current
  {
    hide Step, Inv, Undisturbed;
    WaitingRun(states, ops, i, 0, t1 + 1);
    WaitingRun(states, ops, i, t1 + 1, t2 + 1);
    assert Ticks(ops, t1 + 1, t2 + 1) >= 1;
  }

  // ----- Added and blocked tasks -----

  /** The slot behind the used ones is ready, with the pid added; all others are as they were. */
  lemma AddedReady(s: Sched, pid: int, s': Sched)
    requires Inv(s) && s.num < MAX_SCHEDULED && Step(s, Add(pid), s')
    ensures !Used(s, s.num) && InState(s', s.num, Ready) && s'.table[s.num].pid == pid
    ensures s'.num == s.num + 1 && s'.current == s.current && |s'.table| == |s.table|
    ensures forall i :: 0 <= i < |s.table| && i != s.num ==> s'.table[i] == s.table[i]
  {
  }

  lemma {:induction false} RunKeepsPid(states: seq<Sched>, ops: seq<Op>, i: nat, t: nat)
    requires IsRun(states, ops) && Used(states[0], i) && t < |states|
    ensures Used(states[t], i) && states[t].table[i].pid == states[0].table[i].pid
  {
    if 0 < t {
      RunKeepsPid(states, ops, i, t - 1);
      RunKeepsInv(states, ops, t - 1);
      assert Step(states[t - 1], ops[t - 1], states[t]);
      StepKeepsPid(states[t - 1], ops[t - 1], states[t], i);
    }
  }

  lemma StepKeepsPid(s: Sched, op: Op, s': Sched, i: nat)
    requires Inv(s) && Step(s, op, s') && Used(s, i)
    ensures Used(s', i) && s'.table[i].pid == s.table[i].pid
  {
  }

  /** An added task gets to run: in every run that starts with adding it while there is room, leaves it
      undisturbed, and has 16 ticks. */
  lemma AddedRuns(states: seq<Sched>, ops: seq<Op>, pid: int)
    requires IsRun(states, ops) && ops != [] && ops[0] == Add(pid) && states[0].num < MAX_SCHEDULED
    requires Undisturbed(states[1..], ops[1..], states[0].num)
    requires MAX_SCHEDULED <= Ticks(ops[1..], 0, |ops| - 1)
    ensures exists t :: 0 < t < |states| && InState(states[t], states[0].num, Running) && states[t].table[states[0].num].pid == pid
  {
    var i, later, rest := states[0].num, states[1..], ops[1..];
    assert Step(states[0], ops[0], states[1]);
    AddedReady(states[0], pid, states[1]);
    StepKeepsInv(states[0], ops[0], states[1]);
    TailIsRun(states, ops);
    BoundedWaiting(later, rest, i);
    var t :| 0 <= t < |later| && InState(later[t], i, Running);
    RunKeepsPid(later, rest, i, t);
    assert states[t + 1] == later[t];
  }

  lemma TailIsRun(states: seq<Sched>, ops: seq<Op>)
    requires IsRun(states, ops) && ops != []
    ensures IsRun(states[1..], ops[1..])
  {
    assert Step(states[0], ops[0], states[1]);
    StepKeepsInv(states[0], ops[0], states[1]);
    hide Step, Inv;
    forall t | 0 <= t < |ops| - 1 ensures Step(states[1..][t], ops[1..][t], states[1..][t + 1]) {
      assert Step(states[t + 1], ops[t + 1], states[t + 2]);
    }
  }

  /** The step blocks slot `i` on an event. */
  predicate BlocksOn(s: Sched, op: Op, i: nat, event: int) {
    (op == BlockCurrent(event) && s.current == i) || (op.Block? && op.event == event && SlotOf(s.table, op.pid) == i)
  }

  predicate BlockedOn(s: Sched, i: nat, event: int) {
    InState(s, i, Blocked) && s.table[i].event == event
  }

  lemma BlockingBlocks(s: Sched, op: Op, s': Sched, i: nat, event: int)
    requires Inv(s) && Step(s, op, s') && BlocksOn(s, op, i, event)
    ensures BlockedOn(s', i, event)
    ensures s'.num == s.num && s'.current == s.current
    ensures forall j :: 0 <= j < |s.table| && j != i ==> s'.table[j] == s.table[j]
  {
  }

  /** A blocked task becomes ready exactly when another task exits and it waits for that. It stays blocked on
      its event in every other step that neither blocks it anew nor exits it, and no tick comes to it. */
  lemma BlockedUntil(s: Sched, op: Op, s': Sched, i: nat, event: int)
    requires Inv(s) && Step(s, op, s') && BlockedOn(s, i, event)
    ensures InState(s', i, Ready) <==>
              op.Exit? && event == EVENT_PROCESS_FINISHED && op.pid != s.table[i].pid
    ensures BlockedOn(s', i, event) || InState(s', i, Ready)
            || (op.Exit? && SlotOf(s.table, op.pid) == i) || (exists e :: BlocksOn(s, op, i, e))
    ensures op.Tick? ==> s'.current != i
  {
    assert Used(s, i);
    if op.Block? && SlotOf(s.table, op.pid) == i {
      assert BlocksOn(s, op, i, op.event);
    } else if op.BlockCurrent? && s.current == i {
      assert BlocksOn(s, op, i, op.event);
    }
  }

  /** The step could change a task that is blocked on an event: it exits or blocks it, or broadcasts the event. */
  predicate Reaches(s: Sched, op: Op, i: nat, event: int) {
    || (op.Exit? && (SlotOf(s.table, op.pid) == i || event == EVENT_PROCESS_FINISHED))
    || (op.Block? && SlotOf(s.table, op.pid) == i)
    || (op.BlockCurrent? && s.current == i)
  }

  /** Over a run: until its event is broadcast, a blocked task is not scheduled. */
  lemma {:induction false} BlockedWaits(states: seq<Sched>, ops: seq<Op>, i: nat, event: int, t: nat)
    requires IsRun(states, ops) && t < |states| && BlockedOn(states[0], i, event)
    requires forall j :: 0 <= j < t ==> !Reaches(states[j], ops[j], i, event)
    ensures BlockedOn(states[t], i, event)
    ensures 0 < t && ops[t - 1].Tick? ==> states[t].current != i
  {
    if 0 < t {
      BlockedWaits(states, ops, i, event, t - 1);
      RunKeepsInv(states, ops, t - 1);
      assert Step(states[t - 1], ops[t - 1], states[t]) && !Reaches(states[t - 1], ops[t - 1], i, event);
      BlockedUntil(states[t - 1], ops[t - 1], states[t], i, event);
    }
  }

  /** A tick runs one ready task and stops the one that ran; the others stay as they were. */
  lemma TickChanges(s: Sched, s': Sched)
    requires Inv(s) && Step(s, Tick, s')
    ensures InState(s', s'.current, Running) && s'.pid == s'.table[s'.current].pid
    ensures InState(s, s'.current, Ready) || (s'.current == s.current && InState(s, s.current, Running))
    ensures InState(s, s.current, Running) && s'.current != s.current ==> InState(s', s.current, Ready)
    ensures forall i :: 0 <= i < |s.table| && i != s'.current && !(i == s.current && InState(s, i, Running)) ==>
              s'.table[i] == s.table[i]
  {
  }

  /** A broadcast readies exactly the tasks blocked on the event, but for the excluded one. */
  lemma BroadcastReadies(table: seq<Entry>, event: int, exclude: int, i: nat)
    requires i < |table|
    ensures var e, e' := table[i], Broadcasted(table, event, exclude)[i];
            && (e'.state == Ready <==> e.state == Ready || (e.state == Blocked && e.event == event && e.pid != exclude))
            && (e' != e ==> e' == e.(state := Ready, event := EVENT_NO_EVENT) && e.state == Blocked)
            && e'.pid == e.pid && e'.exitcode == e.exitcode
  {
  }
}
