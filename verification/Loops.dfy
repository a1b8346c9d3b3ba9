/** FOR and NEXT: how often a loop runs its body, with which values, and where it leaves. */
module Loops {
  import opened Bytes
  import opened Expressions
  import opened Statements
  import opened Programs

  // ----- Variables -----

  lemma AssignReads(env: Env, v: Var, x: Int16)
    requires ValidEnv(env) && ValidVar(v) && Assign(env, v, x).Ok?
    ensures ScalarValue(Assign(env, v, x).value, v) == Ok(x)
  {
    if v.Named? {
      var k, context := NameIndex(env.context, v.name), Assign(env, v, x).value.context;
      if k < |env.context| {
        IndexUnique(context, v.name, k);
      } else {
        IndexUnique(context, v.name, |env.context|);
      }
    }
  }

  /** Only a new name can be refused: when sixteen are defined. */
  lemma AssignLimit(env: Env, v: Var, x: Int16)
    requires ValidEnv(env) && ValidVar(v)
    ensures Assign(env, v, x).Err? <==> ScalarValue(env, v).Err? && |env.context| == 16
    ensures Assign(env, v, x).Err? ==> Assign(env, v, x).error == ERROR_TOO_MANY_VARS
    ensures Assign(env, v, x).Ok? ==> |Assign(env, v, x).value.context| == |env.context| + if ScalarValue(env, v).Err? then 1 else 0
  {
  }

  /** Assigning a variable leaves the others as they were. */
  lemma AssignFrame(env: Env, v: Var, x: Int16, w: Var)
    requires ValidEnv(env) && ValidVar(v) && ValidVar(w) && v != w && Assign(env, v, x).Ok?
    requires ScalarValue(env, w).Ok?
    ensures ScalarValue(Assign(env, v, x).value, w) == ScalarValue(env, w)
  {
    if w.Named? {
      IndexUnique(Assign(env, v, x).value.context, w.name, NameIndex(env.context, w.name));
    }
  }

  lemma AssignDefined(env: Env, v: Var, x: Int16)
    requires ValidEnv(env) && ValidVar(v) && ScalarValue(env, v).Ok?
    ensures Assign(env, v, x).Ok?
  {
  }

  // ----- Steps -----

  lemma {:induction false} StepsAdd(text: set<int>, r: Run, a: nat, b: nat, rewriting: bool)
    requires Proper(r)
    ensures Steps(text, r, a + b, rewriting) == Steps(text, Steps(text, r, a, rewriting), b, rewriting)
    decreases a
  {
    hide Step, Proper;
    if 0 < a {
      StepProper(text, r, rewriting);
      StepsAdd(text, Step(text, r, rewriting), a - 1, b, rewriting);
    }
  }

  lemma StepsOne(text: set<int>, r: Run, rewriting: bool)
    requires Proper(r)
    ensures Steps(text, r, 1, rewriting) == Step(text, r, rewriting)
  {
    hide Step, Proper;
    StepProper(text, r, rewriting);
    assert Steps(text, Step(text, r, rewriting), 0, rewriting) == Step(text, r, rewriting);
  }

  /** A FOR or a NEXT in the text stays there. */
  lemma {:induction false} LoopTextStays(text: set<int>, r: Run, n: nat, rewriting: bool, i: nat)
    requires Proper(r) && !r.Crashed? && i < |r.lines| && (r.lines[i].stmt.For? || r.lines[i].stmt.Next?)
    ensures var r' := Steps(text, r, n, rewriting);
            !r'.Crashed? ==> |r'.lines| == |r.lines| && Nos(r'.lines) == Nos(r.lines) && r'.lines[i].stmt == r.lines[i].stmt
    decreases n
  {
    hide ValidCore, ValidStmt, ExecPrint, ExecLet, ExecDim, ExecFor, Meaning, ClearExpr;
    if 0 < n {
      var r1 := Step(text, r, rewriting);
      StepProper(text, r, rewriting);
      if r.Going? {
        OneStepKeeps(text, r, rewriting, i);
      }
      if r1.Crashed? {
        CrashedStays(text, n - 1, rewriting);
      } else {
        LoopTextStays(text, r1, n - 1, rewriting, i);
      }
    }
  }

  lemma OneStepKeeps(text: set<int>, r: Run, rewriting: bool, i: nat)
    requires Proper(r) && r.Going? && i < |r.lines| && (r.lines[i].stmt.For? || r.lines[i].stmt.Next?)
    ensures var r' := Step(text, r, rewriting);
            !r'.Crashed? ==> |r'.lines| == |r.lines| && Nos(r'.lines) == Nos(r.lines) && r'.lines[i].stmt == r.lines[i].stmt
  {
    hide ValidCore, ExecPrint, ExecLet, ExecDim, ExecFor, Meaning, ClearExpr;
  }

  lemma {:induction false} CrashedStays(text: set<int>, n: nat, rewriting: bool)
    ensures Steps(text, Crashed, n, rewriting) == Crashed
    decreases n
  {
    if 0 < n {
      CrashedStays(text, n - 1, rewriting);
    }
  }

  // ----- Loops -----

  ghost predicate AtLine(r: Run, i: nat) {
    r.Going? && r.core.next == Some(i)
  }

  /** A loop about to be entered: the FOR is at line `f`, its NEXT at line `n`, there is room on the
      return stack, and the frame on top, if any, is not for the same variable. */
  ghost predicate Entering(r: Run, f: nat, n: nat, v: Var, start: Int16, limit: Int16) {
    && Proper(r) && AtLine(r, f) && f + 1 < |r.lines| && n < |r.lines|
    && r.lines[f].stmt == For(v, start, limit) && r.lines[n].stmt == Next(v)
    && ValidVar(v) && Assign(r.core.env, v, start).Ok?
    && |r.core.stack| < RETURN_STACK_LIMIT && (r.core.stack != [] ==> Top(r.core).loop != Some(v))
  }

  /** The body, entered in state `e`, comes to line `n` after `t` steps, with the return stack and the
      loop variable as they were. */
  ghost predicate BodyDone(text: set<int>, e: Run, t: nat, n: nat, v: Var, rewriting: bool)
    requires ValidVar(v)
  {
    && Proper(e) && e.Going?
    && var b := Steps(text, e, t, rewriting);
       && AtLine(b, n) && b.core.stack == e.core.stack
       && ScalarValue(b.core.env, v) == ScalarValue(e.core.env, v)
  }

  /** The number of steps up to the `i`-th entry of the body, counted from 0, given how many steps the
      body takes each time: the FOR, then the body, the NEXT and the FOR again. */
  function LoopSteps(t: nat -> nat, i: nat): nat {
    if i == 0 then 1 else LoopSteps(t, i - 1) + t(i - 1) + 2
  }

  function Entry(text: set<int>, r: Run, t: nat -> nat, i: nat, rewriting: bool): (e: Run)
    requires Proper(r)
    ensures Proper(e)
  {
    Steps(text, r, LoopSteps(t, i), rewriting)
  }

  /** The `i`-th entry: the body is next, the loop's frame is on the stack, the variable has its value. */
  ghost predicate Inside(r: Run, e: Run, f: nat, v: Var, x: int)
    requires Proper(e) && ValidVar(v) && r.Going?
  {
    AtLine(e, f + 1) && e.core.stack == r.core.stack + [Frame(f, Some(v))] && ScalarValue(e.core.env, v) == Ok(x)
  }

  /** After the loop: control is past the NEXT, or the run ended if there is no line there; the return
      stack is as on entry and the variable has the limit. */
  ghost predicate Left(r: Run, e: Run, n: nat, v: Var, limit: Int16)
    requires Proper(e) && ValidVar(v) && r.Going?
  {
    && !e.Crashed? && e.core.stack == r.core.stack && ScalarValue(e.core.env, v) == Ok(limit)
    && (n + 1 < |r.lines| ==> AtLine(e, n + 1))
    && (n + 1 == |r.lines| ==> e.Ended? && e.error == ERROR_GOTO)
  }

  /** The FOR is entered. */
  lemma ForEnters(text: set<int>, r: Run, f: nat, n: nat, v: Var, start: Int16, limit: Int16, rewriting: bool)
    requires Entering(r, f, n, v, start, limit) && start < limit
    ensures var e := Step(text, r, rewriting);
            && AtLine(e, f + 1) && e.core.stack == r.core.stack + [Frame(f, Some(v))]
            && e.core.env == Assign(r.core.env, v, start).value
            && e.lines == r.lines
  {
    assert ValidEnv(r.core.env);
    hide Assign, ScalarValue, ValidCore, ValidStmt;
    AssignReads(r.core.env, v, start);
    if rewriting {
      assert SetStmt(r.lines, f, r.lines[f].stmt) == r.lines;
    }
  }

  /** The NEXT of a loop goes back to its FOR. */
  lemma NextReturns(text: set<int>, b: Run, stack: seq<Frame>, f: nat, n: nat, v: Var, rewriting: bool)
    requires Proper(b) && AtLine(b, n) && n < |b.lines| && b.lines[n].stmt == Next(v)
    requires b.core.stack == stack + [Frame(f, Some(v))]
    ensures var r := Step(text, b, rewriting);
            && AtLine(r, f) && r.core.stack == stack + [Frame(n, Some(v))] && r.core.env == b.core.env && r.lines == b.lines
  {
    if rewriting {
      assert SetStmt(b.lines, n, b.lines[n].stmt) == b.lines;
    }
  }

  /** The FOR, returned to, takes the next value, and either enters the body again or leaves. */
  lemma ForAgain(text: set<int>, r: Run, stack: seq<Frame>, f: nat, n: nat, v: Var, x: Int16, start: Int16, limit: Int16,
                 rewriting: bool)
    requires Proper(r) && AtLine(r, f) && f + 1 < |r.lines| && n < |r.lines| && r.lines[f].stmt == For(v, start, limit)
    requires r.core.stack == stack + [Frame(n, Some(v))] && ValidVar(v)
    requires ScalarValue(r.core.env, v) == Ok(x) && x < limit && |stack| < RETURN_STACK_LIMIT
    ensures Assign(r.core.env, v, x + 1).Ok?
    ensures var e := Step(text, r, rewriting);
            && !e.Crashed? && e.core.env == Assign(r.core.env, v, x + 1).value && e.lines == r.lines
            && (x + 1 < limit ==> AtLine(e, f + 1) && e.core.stack == stack + [Frame(f, Some(v))])
            && (x + 1 == limit ==> e.core.stack == stack)
            && (x + 1 == limit && n + 1 < |r.lines| ==> AtLine(e, n + 1))
            && (x + 1 == limit && n + 1 == |r.lines| ==> e.Ended? && e.error == ERROR_GOTO)
  {
    var nos, c := Nos(r.lines), Arrive(Nos(r.lines), r.core);
    ArriveValid(nos, r.core);
    ForAgainExec(nos, c, stack, n, v, x, start, limit, r.lines[f].stmt);
    hide Assign, ScalarValue, ValidCore, ValidStmt, ExecFor;
    if rewriting {
      assert SetStmt(r.lines, f, r.lines[f].stmt) == r.lines;
    }
  }

  lemma ForAgainExec(nos: seq<Int16>, c: Core, stack: seq<Frame>, n: nat, v: Var, x: Int16, start: Int16, limit: Int16, s: Stmt)
    requires ValidEnv(c.env) && ValidVar(v) && c.stack == stack + [Frame(n, Some(v))]
    requires ScalarValue(c.env, v) == Ok(x) && x < limit && |stack| < RETURN_STACK_LIMIT
    ensures Assign(c.env, v, x + 1).Ok?
    ensures var env := Assign(c.env, v, x + 1).value;
            ExecFor(nos, c, v, start, limit, s)
            == if x + 1 < limit then Done(c.(env := env, stack := stack + [Frame(c.cur, Some(v))]), s, 0)
               else Done(c.(env := env, stack := stack, next := Following(nos, n)), s, 0)
  {
    hide Assign, ScalarValue;
    AssignDefined(c.env, v, x + 1);
    AssignReads(c.env, v, x + 1);
    assert c.stack[..|stack|] == stack;
  }

  // ----- The whole loop -----

  lemma FirstEntry(text: set<int>, r: Run, f: nat, n: nat, v: Var, start: Int16, limit: Int16, t: nat -> nat, rewriting: bool)
    requires Entering(r, f, n, v, start, limit) && start < limit
    ensures var e := Entry(text, r, t, 0, rewriting);
            Inside(r, e, f, v, start) && e.core.env == Assign(r.core.env, v, start).value && e.lines == r.lines
  {
    hide Step, Assign, Proper, ScalarValue;
    StepsOne(text, r, rewriting);
    ForEnters(text, r, f, n, v, start, limit, rewriting);
    EnteringEnv(r, f, n, v, start, limit);
    AssignReads(r.core.env, v, start);
  }

  lemma EnteringEnv(r: Run, f: nat, n: nat, v: Var, start: Int16, limit: Int16)
    requires Entering(r, f, n, v, start, limit)
    ensures r.Going? && ValidEnv(r.core.env)
  {
  }

  lemma NextEntry(text: set<int>, r: Run, t: nat -> nat, i: nat, rewriting: bool)
    requires Proper(r)
    ensures var b := Steps(text, Entry(text, r, t, i, rewriting), t(i), rewriting);
            && Proper(b) && Proper(Step(text, b, rewriting))
            && Entry(text, r, t, i + 1, rewriting) == Step(text, Step(text, b, rewriting), rewriting)
  {
    hide Step, Proper, Steps;
    var e := Entry(text, r, t, i, rewriting);
    var b := Steps(text, e, t(i), rewriting);
    StepProper(text, b, rewriting);
    StepsAdd(text, r, LoopSteps(t, i), t(i) + 2, rewriting);
    StepsAdd(text, e, t(i), 2, rewriting);
    StepsAdd(text, b, 1, 1, rewriting);
    StepsOne(text, b, rewriting);
    StepsOne(text, Step(text, b, rewriting), rewriting);
  }

  /** From one entry of the body to the next, or out of the loop. */
  lemma OnceRound(text: set<int>, r: Run, f: nat, n: nat, v: Var, start: Int16, limit: Int16, t: nat -> nat, rewriting: bool,
                  i: nat, x: Int16)
    requires Entering(r, f, n, v, start, limit) && x < limit
    requires var e := Entry(text, r, t, i, rewriting);
             && Inside(r, e, f, v, x) && BodyDone(text, e, t(i), n, v, rewriting)
    ensures var b, e' := Steps(text, Entry(text, r, t, i, rewriting), t(i), rewriting), Entry(text, r, t, i + 1, rewriting);
            && (x + 1 < limit ==> Inside(r, e', f, v, x + 1)) && (x + 1 == limit ==> Left(r, e', n, v, limit))
            && ValidEnv(b.core.env) && Assign(b.core.env, v, x + 1).Ok?
            && e'.core.env == Assign(b.core.env, v, x + 1).value
  {
    var e := Entry(text, r, t, i, rewriting);
    var b := Steps(text, e, t(i), rewriting);
    assert ValidEnv(b.core.env);
    hide Step, Steps, Assign, Proper, ScalarValue;
    NextEntry(text, r, t, i, rewriting);
    LoopTextAt(text, r, t, i, rewriting, f);
    LoopTextAt(text, r, t, i, rewriting, n);
    NextReturns(text, b, r.core.stack, f, n, v, rewriting);
    ForAgain(text, Step(text, b, rewriting), r.core.stack, f, n, v, x, start, limit, rewriting);
    AssignReads(b.core.env, v, x + 1);
  }

  lemma LoopTextAt(text: set<int>, r: Run, t: nat -> nat, i: nat, rewriting: bool, k: nat)
    requires Proper(r) && r.Going? && k < |r.lines| && (r.lines[k].stmt.For? || r.lines[k].stmt.Next?)
    ensures var b := Steps(text, Entry(text, r, t, i, rewriting), t(i), rewriting);
            !b.Crashed? ==> |b.lines| == |r.lines| && b.lines[k].stmt == r.lines[k].stmt
  {
    hide Step, Steps, Proper;
    StepsAdd(text, r, LoopSteps(t, i), t(i), rewriting);
    LoopTextStays(text, r, LoopSteps(t, i) + t(i), rewriting, k);
  }

  /** A FOR and NEXT loop whose body is balanced runs the body exactly `limit - start` times, with the
      values from `start` up to `limit - 1`, and leaves past its NEXT with the return stack as it was. */
  lemma {:induction false} LoopRuns(text: set<int>, r: Run, f: nat, n: nat, v: Var, start: Int16, limit: Int16,
                                    t: nat -> nat, rewriting: bool, i: nat)
    requires Entering(r, f, n, v, start, limit) && start < limit && i <= limit - start
    requires forall j :: 0 <= j < i ==> BodyDone(text, Entry(text, r, t, j, rewriting), t(j), n, v, rewriting)
    ensures i < limit - start ==> Inside(r, Entry(text, r, t, i, rewriting), f, v, start + i)
    ensures i == limit - start ==> Left(r, Entry(text, r, t, i, rewriting), n, v, limit)
  {
    hide Step, Steps, Assign, Proper, ScalarValue, BodyDone, Entry, LoopSteps;
    if i == 0 {
      FirstEntry(text, r, f, n, v, start, limit, t, rewriting);
    } else {
      LoopRuns(text, r, f, n, v, start, limit, t, rewriting, i - 1);
      OnceRound(text, r, f, n, v, start, limit, t, rewriting, i - 1, start + i - 1);
    }
  }

  /** The loop itself changes no other variable. */
  lemma {:induction false} LoopKeeps(text: set<int>, r: Run, f: nat, n: nat, v: Var, start: Int16, limit: Int16,
                                     t: nat -> nat, rewriting: bool, i: nat, w: Var)
    requires Entering(r, f, n, v, start, limit) && start < limit && i <= limit - start
    requires ValidVar(w) && w != v && ScalarValue(r.core.env, w).Ok?
    requires forall j :: 0 <= j < i ==>
               && BodyDone(text, Entry(text, r, t, j, rewriting), t(j), n, v, rewriting)
               && BodyDone(text, Entry(text, r, t, j, rewriting), t(j), n, w, rewriting)
    ensures !Entry(text, r, t, i, rewriting).Crashed?
    ensures ScalarValue(Entry(text, r, t, i, rewriting).core.env, w) == ScalarValue(r.core.env, w)
  {
    hide Step, Steps, Assign, Proper, ScalarValue, Entry, LoopSteps, BodyDone, Entering;
    EnteringEnv(r, f, n, v, start, limit);
    LoopRuns(text, r, f, n, v, start, limit, t, rewriting, i);
    if i == 0 {
      FirstKept(text, r, f, n, v, start, limit, t, rewriting, w);
    } else {
      LoopRuns(text, r, f, n, v, start, limit, t, rewriting, i - 1);
      LoopKeeps(text, r, f, n, v, start, limit, t, rewriting, i - 1, w);
      OnceKept(text, r, f, n, v, start, limit, t, rewriting, i - 1, start + i - 1, w);
    }
  }

  lemma FirstKept(text: set<int>, r: Run, f: nat, n: nat, v: Var, start: Int16, limit: Int16, t: nat -> nat, rewriting: bool,
                  w: Var)
    requires Entering(r, f, n, v, start, limit) && start < limit
    requires ValidVar(w) && w != v && ValidEnv(r.core.env) && ScalarValue(r.core.env, w).Ok?
    ensures var e := Entry(text, r, t, 0, rewriting);
            !e.Crashed? && ValidEnv(e.core.env) && ScalarValue(e.core.env, w) == ScalarValue(r.core.env, w)
  {
    hide Step, Steps, Proper, ScalarValue, Entry;
    FirstEntry(text, r, f, n, v, start, limit, t, rewriting);
    AssignFrame(r.core.env, v, start, w);
  }

  lemma OnceKept(text: set<int>, r: Run, f: nat, n: nat, v: Var, start: Int16, limit: Int16, t: nat -> nat, rewriting: bool,
                 i: nat, x: Int16, w: Var)
    requires Entering(r, f, n, v, start, limit) && x < limit && ValidVar(w) && w != v
    requires var e := Entry(text, r, t, i, rewriting);
             && Inside(r, e, f, v, x) && BodyDone(text, e, t(i), n, v, rewriting) && BodyDone(text, e, t(i), n, w, rewriting)
             && ScalarValue(e.core.env, w).Ok?
    ensures var e, e' := Entry(text, r, t, i, rewriting), Entry(text, r, t, i + 1, rewriting);
            !e'.Crashed? && ValidEnv(e'.core.env) && ScalarValue(e'.core.env, w) == ScalarValue(e.core.env, w)
  {
    hide Step, Steps, Assign, Proper, ScalarValue, Entry;
    OnceRound(text, r, f, n, v, start, limit, t, rewriting, i, x);
    var b := Steps(text, Entry(text, r, t, i, rewriting), t(i), rewriting);
    AssignFrame(b.core.env, v, x + 1, w);
  }

  /** So a loop over another variable, between a FOR and its NEXT, is itself a balanced body. */
  lemma NestedLoop(text: set<int>, r: Run, f: nat, n: nat, v: Var, start: Int16, limit: Int16, t: nat -> nat,
                   rewriting: bool, w: Var)
    requires Entering(r, f, n, v, start, limit) && start < limit && n + 1 < |r.lines|
    requires ValidVar(w) && w != v && ScalarValue(r.core.env, w).Ok?
    requires forall j :: 0 <= j < limit - start ==>
               && BodyDone(text, Entry(text, r, t, j, rewriting), t(j), n, v, rewriting)
               && BodyDone(text, Entry(text, r, t, j, rewriting), t(j), n, w, rewriting)
    ensures BodyDone(text, r, LoopSteps(t, limit - start), n + 1, w, rewriting)
  {
    hide Step, Steps, Assign, ScalarValue, LoopSteps;
    LoopRuns(text, r, f, n, v, start, limit, t, rewriting, limit - start);
    LoopKeeps(text, r, f, n, v, start, limit, t, rewriting, limit - start, w);
  }

  /** A FOR whose start is not below its limit, first met, does not skip its loop. It goes to the line
      after whatever the return stack has on top, and is undefined where that is empty. */
  lemma ForNotSkipping(text: set<int>, r: Run, f: nat, n: nat, v: Var, start: Int16, limit: Int16, rewriting: bool)
    requires Entering(r, f, n, v, start, limit) && limit <= start
    ensures var e := Step(text, r, rewriting);
            && (e.Crashed? <==> r.core.stack == [])
            && (r.core.stack != [] ==>
                  && e.core.stack == r.core.stack
                  && (Top(r.core).line + 1 < |r.lines| ==> AtLine(e, Top(r.core).line + 1))
                  && (Top(r.core).line + 1 >= |r.lines| ==> e.Ended? && e.error == ERROR_GOTO))
  {
    assert ValidEnv(r.core.env);
    hide Assign, ScalarValue, ValidCore, ValidStmt;
    AssignReads(r.core.env, v, start);
  }

  const A: Var := Register(0)

  /** 10 FOR A = 1 TO 1, 20 NEXT A. */
  const EMPTY_LOOP: seq<Line> := [Line(10, For(A, 1, 1)), Line(20, Next(A))]

  /** The smallest such program is undefined at its first line. */
  lemma EmptyLoopUndefined(text: set<int>, registers: seq<Cell>, mem: seq<Byte>, end: nat, out: seq<Printed>, rewriting: bool)
    requires |registers| == NUM_REGISTERS && |mem| == MEMORY && end <= MEMORY
    ensures var r := Begin(EMPTY_LOOP, registers, mem, end, out); Proper(r) && Step(text, r, rewriting).Crashed?
  {
    var r := Begin(EMPTY_LOOP, registers, mem, end, out);
    BeginProper(EMPTY_LOOP, registers, mem, end, out);
    ForNotSkipping(text, r, 0, 1, A, 1, 1, rewriting);
  }

  // ----- Two crossed loops -----

  const B: Var := Register(1)

  /** 10 FOR A = 1 TO 2, 20 FOR B = 1 TO 2, 30 IF 1 = 1 THEN NEXT A, 40 END. */
  const CROSSED_LOOPS: seq<Line> := [
    Line(10, For(A, 1, 2)), Line(20, For(B, 1, 2)), Line(30, If(ONE, Equal, ONE, Next(A))), Line(40, Finish)]

  function Set(env: Env, v: Var, x: Int16): (r: Env)
    requires ValidEnv(env) && v.Register? && v.letter < NUM_REGISTERS
    ensures ValidEnv(r) && Assign(env, v, x) == Ok(r)
  {
    env.(registers := env.registers[v.letter := env.registers[v.letter].(value := x)])
  }

  ghost predicate Crossed(r: Run, core: Core) {
    r == Going(CROSSED_LOOPS, core) && Proper(r)
  }

  lemma CrossedNos()
    ensures Nos(CROSSED_LOOPS) == [10, 20, 30, 40]
  {
  }

  /** A FOR is entered. */
  lemma CrossedFor(text: set<int>, r: Run, core: Core, v: Var)
    requires Crossed(r, core) && v in {A, B} && core.next == Some(v.letter)
    requires |core.stack| < 2 && (core.stack != [] ==> Top(core).loop != Some(v))
    ensures Crossed(Step(text, r, false),
                    core.(cur := v.letter, next := Some(v.letter + 1), env := Set(core.env, v, 1),
                          stack := core.stack + [Frame(v.letter, Some(v))]))
  {
    CrossedNos();
    StepProper(text, r, false);
    var c := Arrive(Nos(CROSSED_LOOPS), core);
    AssignReads(c.env, v, 1);
    hide Assign, ScalarValue, ValidCore;
    assert Exec(Nos(CROSSED_LOOPS), text, c, For(v, 1, 2)) == Done(Push(c.(env := Set(core.env, v, 1)), Frame(c.cur, Some(v))), For(v, 1, 2), 0);
  }

  /** The NEXT under the IF fails, and then does not. */
  lemma CrossedNext(text: set<int>, r: Run, core: Core)
    requires Crossed(r, core) && core.next == Some(2) && core.stack == [Frame(0, Some(A)), Frame(1, Some(B))]
    ensures Crossed(Step(text, r, false), core.(cur := 2, next := Some(0), stack := [Frame(2, Some(A))]))
  {
    CrossedNos();
    StepProper(text, r, false);
    var c := Arrive(Nos(CROSSED_LOOPS), core);
    NextTwice(Nos(CROSSED_LOOPS), text, c, A, Some(B), [], 0, 1);
    hide Exec, ValidCore;
  }

  lemma CrossedLeaves(text: set<int>, r: Run, core: Core)
    requires Crossed(r, core) && core.next == Some(0) && core.stack == [Frame(2, Some(A))] && ScalarValue(core.env, A) == Ok(1)
    ensures Crossed(Step(text, r, false), core.(cur := 0, next := Some(3), env := Set(core.env, A, 2), stack := []))
  {
    CrossedNos();
    StepProper(text, r, false);
    var c := Arrive(Nos(CROSSED_LOOPS), core);
    var env: Env := Set(c.env, A, 2);
    assert ValidEnv(c.env) && c.stack == [] + [Frame(2, Some(A))];
    hide Assign, ScalarValue, ValidCore, ExecFor;
    ForAgainExec(Nos(CROSSED_LOOPS), c, [], 2, A, 1, 1, 2, For(A, 1, 2));
    assert Exec(Nos(CROSSED_LOOPS), text, c, For(A, 1, 2)) == Done(c.(env := env, stack := [], next := Some(3)), For(A, 1, 2), 0);
  }

  lemma CrossedEnds(text: set<int>, r: Run, core: Core)
    requires Crossed(r, core) && core.next == Some(3)
    ensures Step(text, r, false).Ended? && Step(text, r, false).error == 0
  {
    CrossedNos();
    hide ValidCore;
  }

  /** The program runs to its end without an error, although the NEXT of line 30 fails the first time. */
  lemma CrossedLoopsEnd(text: set<int>, registers: seq<Cell>, mem: seq<Byte>, end: nat, out: seq<Printed>)
    requires |registers| == NUM_REGISTERS && |mem| == MEMORY && end <= MEMORY
    ensures Proper(Begin(CROSSED_LOOPS, registers, mem, end, out))
    ensures var r := Steps(text, Begin(CROSSED_LOOPS, registers, mem, end, out), 5, false); r.Ended? && r.error == 0
  {
    var r0 := Begin(CROSSED_LOOPS, registers, mem, end, out);
    BeginProper(CROSSED_LOOPS, registers, mem, end, out);
    hide Step, Proper, ValidCore;
    var e0 := r0.core.env;
    CrossedFor(text, r0, r0.core, A);
    var r1, c1 := Step(text, r0, false), r0.core.(cur := 0, next := Some(1), env := Set(e0, A, 1), stack := [Frame(0, Some(A))]);
    assert r0.core.stack + [Frame(0, Some(A))] == [Frame(0, Some(A))];
    CrossedFor(text, r1, c1, B);
    var r2, c2 := Step(text, r1, false),
                  c1.(cur := 1, next := Some(2), env := Set(c1.env, B, 1), stack := [Frame(0, Some(A)), Frame(1, Some(B))]);
    assert c1.stack + [Frame(1, Some(B))] == c2.stack;
    CrossedNext(text, r2, c2);
    var r3 := Step(text, r2, false);
    CrossedLeaves(text, r3, c2.(cur := 2, next := Some(0), stack := [Frame(2, Some(A))]));
    var r4 := Step(text, r3, false);
    CrossedEnds(text, r4, r4.core);
    FiveSteps(text, r0);
  }

  lemma FiveSteps(text: set<int>, r: Run)
    requires Proper(r)
    ensures Proper(Step(text, r, false))
    ensures var r2 := Step(text, Step(text, r, false), false); Proper(r2) && Proper(Step(text, r2, false))
    ensures var r3 := Step(text, Step(text, Step(text, r, false), false), false);
            Proper(Step(text, r3, false)) && Steps(text, r, 5, false) == Step(text, Step(text, r3, false), false)
  {
    hide Step, Proper, Steps;
    StepProper(text, r, false);
    var r1 := Step(text, r, false);
    StepProper(text, r1, false);
    var r2 := Step(text, r1, false);
    StepProper(text, r2, false);
    var r3 := Step(text, r2, false);
    StepProper(text, r3, false);
    StepsAdd(text, r, 1, 4, false);
    StepsAdd(text, r1, 1, 3, false);
    StepsAdd(text, r2, 1, 2, false);
    StepsAdd(text, r3, 1, 1, false);
    StepsOne(text, r, false);
    StepsOne(text, r1, false);
    StepsOne(text, r2, false);
    StepsOne(text, r3, false);
    StepsOne(text, Step(text, r3, false), false);
  }
}
