/** Runs of a program, with GOTO and GOSUB overwriting themselves or searching every time. */
module Programs {
  import opened Bytes
  import opened Expressions
  import opened Statements

  function Nos(lines: seq<Line>): (nos: seq<Int16>)
    ensures |nos| == |lines| && forall i :: 0 <= i < |lines| ==> nos[i] == lines[i].no
  {
    seq(|lines|, i requires 0 <= i < |lines| => lines[i].no)
  }

  predicate ValidLines(lines: seq<Line>) {
    lines != [] && forall i :: 0 <= i < |lines| ==> ValidStmt(|lines|, lines[i].stmt)
  }

  /** A run: under way, ended with an error code or 0, or left to undefined behaviour. */
  datatype Run = Going(lines: seq<Line>, core: Core) | Ended(lines: seq<Line>, core: Core, error: int) | Crashed

  ghost predicate Proper(r: Run) {
    !r.Crashed? ==> ValidLines(r.lines) && ValidCore(|r.lines|, r.core) && (r.Going? ==> r.core.next.Some? && r.core.running)
  }

  /** The start of a run: variables are forgotten; registers, memory and what was printed stay. */
  function Begin(lines: seq<Line>, registers: seq<Cell>, mem: seq<Byte>, end: nat, out: seq<Printed>): Run {
    Going(lines, Core(0, Some(0), [], Env(registers, [], mem), end, true, out))
  }

  lemma BeginProper(lines: seq<Line>, registers: seq<Cell>, mem: seq<Byte>, end: nat, out: seq<Printed>)
    requires ValidLines(lines) && |registers| == NUM_REGISTERS && |mem| == MEMORY && end <= MEMORY
    ensures Proper(Begin(lines, registers, mem, end, out))
  {
  }

  /** What follows a statement: the end of the run, or the next line. */
  function Settle(lines: seq<Line>, r: Outcome): Run {
    match r
    case Stuck => Crashed
    case Done(c, _, error) =>
      if !c.running then Ended(lines, c, 0)
      else if error != 0 then Ended(lines, c.(running := false), error)
      else if c.next.None? then Ended(lines, c.(running := false), ERROR_GOTO)
      else Going(lines, c)
  }

  function Arrive(nos: seq<Int16>, c: Core): (r: Core)
    requires c.next.Some?
    ensures r.env == c.env && r.cur == c.next.value
  {
    c.(cur := c.next.value, next := Following(nos, c.next.value))
  }

  function SetStmt(lines: seq<Line>, i: nat, s: Stmt): (r: seq<Line>)
    requires i < |lines|
    ensures |r| == |lines| && Nos(r) == Nos(lines)
  {
    var r := lines[i := lines[i].(stmt := s)];
    assert Nos(r) == Nos(lines);
    r
  }

  /** One line of a run. `rewriting` says whether a jump that searched keeps its new text. */
  function Step(text: set<int>, r: Run, rewriting: bool): Run
    requires Proper(r)
  {
    if !r.Going? then r
    else
      var nos, c := Nos(r.lines), Arrive(Nos(r.lines), r.core);
      var done := Exec(nos, text, c, r.lines[c.cur].stmt);
      Settle(if rewriting && done.Done? then SetStmt(r.lines, c.cur, done.stmt) else r.lines, done)
  }

  lemma StepProper(text: set<int>, r: Run, rewriting: bool)
    requires Proper(r)
    ensures Proper(Step(text, r, rewriting))
  {
    hide Exec;
    if r.Going? {
      var nos, c := Nos(r.lines), Arrive(Nos(r.lines), r.core);
      ExecValid(nos, text, c, r.lines[c.cur].stmt);
    }
  }

  function Steps(text: set<int>, r: Run, n: nat, rewriting: bool): (r': Run)
    requires Proper(r)
    ensures Proper(r')
    decreases n
  {
    if n == 0 then r
    else
      StepProper(text, r, rewriting);
      Steps(text, Step(text, r, rewriting), n - 1, rewriting)
  }

  // ----- Self-modifying jumps -----

  /** `s'` is `s`, at line `cur`, or what `s` turned itself into. */
  predicate Patched(nos: seq<Int16>, cur: nat, s: Stmt, s': Stmt)
    requires cur < |nos|
  {
    || s' == s
    || (match s
        case Goto(n) => s' == Jumpto(Search(nos, cur, n))
        case Gosub(n) => s' == Jumpsub(Search(nos, cur, n))
        case If(left, comparison, right, body) =>
          s'.If? && s'.left == left && s'.comparison == comparison && s'.right == right && Patched(nos, cur, body, s'.body)
        case _ => false)
  }

  /** A rewritten statement does what the original does, and leaves a rewriting of the original. */
  lemma {:induction false} PatchedExec(nos: seq<Int16>, text: set<int>, c: Core, s: Stmt, s': Stmt)
    requires ValidCore(|nos|, c) && ValidStmt(|nos|, s) && ValidStmt(|nos|, s') && Patched(nos, c.cur, s, s')
    ensures var r, r' := Exec(nos, text, c, s), Exec(nos, text, c, s');
            && (r.Stuck? <==> r'.Stuck?)
            && (r.Done? ==> r.core == r'.core && r.error == r'.error && Patched(nos, c.cur, s, r'.stmt))
    decreases s
  {
    hide Meaning, ClearExpr, ExecLet, ExecDim, ExecFor, ExecPrint, Search, ValidEnv, ValidExpr, ValidOperand;
    if s.If? {
      PatchedExec(nos, text, c, s.body, s'.body);
      var first := Exec(nos, text, c, s.body);
      if first.Done? && first.error != 0 {
        ExecValid(nos, text, c, s.body);
        PatchedExec(nos, text, first.core, s.body, s'.body);
      }
    }
  }

  /** A statement turns itself into a rewriting of itself. */
  lemma SelfPatched(nos: seq<Int16>, text: set<int>, c: Core, s: Stmt)
    requires ValidCore(|nos|, c) && ValidStmt(|nos|, s)
    ensures c.cur < |nos| && (Exec(nos, text, c, s).Done? ==> Patched(nos, c.cur, s, Exec(nos, text, c, s).stmt))
  {
    hide Exec, ValidStmt;
    PatchedExec(nos, text, c, s, s);
  }

  /** The runs agree: same current and next line, variables, return stack, output and error; the one
      that rewrites has the lines of the other, some of them rewritten. */
  ghost predicate Agree(r: Run, r': Run) {
    match r
    case Crashed => r'.Crashed?
    case Going(lines, c) => r'.Going? && r'.core == c && LinesPatched(lines, r'.lines)
    case Ended(lines, c, error) => r'.Ended? && r'.core == c && r'.error == error && LinesPatched(lines, r'.lines)
  }

  ghost predicate LinesPatched(lines: seq<Line>, lines': seq<Line>) {
    && |lines'| == |lines| && Nos(lines') == Nos(lines)
    && forall i :: 0 <= i < |lines| ==> Patched(Nos(lines), i, lines[i].stmt, lines'[i].stmt)
  }

  lemma AgreeStep(text: set<int>, r: Run, r': Run)
    requires Proper(r) && Proper(r') && Agree(r, r')
    ensures Agree(Step(text, r, false), Step(text, r', true))
  {
    hide Exec, ValidCore, ValidStmt;
    if r.Going? {
      var nos, c := Nos(r.lines), Arrive(Nos(r.lines), r.core);
      var i := c.cur;
      ArriveValid(nos, r.core);
      PatchedExec(nos, text, c, r.lines[i].stmt, r'.lines[i].stmt);
    }
  }

  lemma ArriveValid(nos: seq<Int16>, c: Core)
    requires ValidCore(|nos|, c) && c.next.Some?
    ensures ValidCore(|nos|, Arrive(nos, c)) && c.next.value < |nos|
  {
  }

  /** Jumps that overwrite themselves cannot be told from jumps that search every time: after any
      number of steps both runs have visited the same lines with the same state and outcome. */
  lemma {:induction false} RewritingInvisible(text: set<int>, r: Run, r': Run, n: nat)
    requires Proper(r) && Proper(r') && Agree(r, r')
    ensures Agree(Steps(text, r, n, false), Steps(text, r', n, true))
    decreases n
  {
    hide Step, Agree, Proper;
    if 0 < n {
      StepProper(text, r, false);
      StepProper(text, r', true);
      AgreeStep(text, r, r');
      RewritingInvisible(text, Step(text, r, false), Step(text, r', true), n - 1);
    }
  }

  /** In particular from the start of a run. */
  lemma RunsAgree(text: set<int>, r: Run, n: nat)
    requires Proper(r)
    ensures Agree(Steps(text, r, n, false), Steps(text, r, n, true))
  {
    hide Steps, Proper;
    assert Agree(r, r);
    RewritingInvisible(text, r, r, n);
  }

  /** The machine that searches every time leaves its lines as they are. */
  lemma {:induction false} SearchKeepsLines(text: set<int>, r: Run, n: nat)
    requires Proper(r)
    ensures var r' := Steps(text, r, n, false); !r'.Crashed? ==> !r.Crashed? && r'.lines == r.lines
    decreases n
  {
    hide Exec, Proper;
    if 0 < n {
      StepProper(text, r, false);
      SearchKeepsLines(text, Step(text, r, false), n - 1);
    }
  }

  lemma {:induction false} EndedStays(text: set<int>, r: Run, n: nat, rewriting: bool)
    requires Proper(r) && !r.Going?
    ensures Steps(text, r, n, rewriting) == r
    decreases n
  {
    if 0 < n {
      EndedStays(text, r, n - 1, rewriting);
    }
  }

  /** A run that ends makes a step that is defined. */
  lemma StepAhead(text: set<int>, r: Run, n: nat, rewriting: bool)
    requires Proper(r) && r.Going? && Steps(text, r, n, rewriting).Ended?
    ensures 0 < n && Proper(Step(text, r, rewriting)) && !Step(text, r, rewriting).Crashed?
    ensures Steps(text, r, n, rewriting) == Steps(text, Step(text, r, rewriting), n - 1, rewriting)
    ensures Step(text, r, rewriting).Ended? ==> Steps(text, r, n, rewriting) == Step(text, r, rewriting)
  {
    hide Step, Proper;
    StepProper(text, r, rewriting);
    if 0 < n && !Step(text, r, rewriting).Going? {
      EndedStays(text, Step(text, r, rewriting), n - 1, rewriting);
    }
  }

  lemma AgreeEnds(r: Run, r': Run)
    requires Agree(r, r') && r.Ended?
    ensures r'.Ended? && r'.core == r.core && r'.error == r.error && LinesPatched(r.lines, r'.lines)
  {
  }

  // ----- A jump back to the first line -----

  /** 10 REM, 20 GOTO 10. */
  const BACK_TO_FIRST: seq<Line> := [Line(10, Remark([])), Line(20, Goto(10))]

  /** Line 20 finds no line 10, and the run ends with the GOTO error. */
  lemma FirstLineNotFound(text: set<int>, registers: seq<Cell>, mem: seq<Byte>, end: nat, out: seq<Printed>, rewriting: bool)
    requires |registers| == NUM_REGISTERS && |mem| == MEMORY && end <= MEMORY
    ensures IsFirstAtLeast([10, 20], 10, Some(0)) && Search([10, 20], 1, 10) == None
    ensures var r := Begin(BACK_TO_FIRST, registers, mem, end, out);
            Proper(r) && Steps(text, r, 2, rewriting).Ended? && Steps(text, r, 2, rewriting).error == ERROR_GOTO
  {
    var r := Begin(BACK_TO_FIRST, registers, mem, end, out);
    BeginProper(BACK_TO_FIRST, registers, mem, end, out);
    assert Nos(BACK_TO_FIRST) == [10, 20];
    StepProper(text, r, rewriting);
    assert SetStmt(BACK_TO_FIRST, 0, Remark([])) == BACK_TO_FIRST;
    var r1 := Step(text, r, rewriting);
    assert r1 == Going(BACK_TO_FIRST, r.core.(next := Some(1)));
    StepProper(text, r1, rewriting);
    var r2 := Step(text, r1, rewriting);
    assert r2.Ended? && r2.error == ERROR_GOTO;
    assert Steps(text, r1, 1, rewriting) == Steps(text, r2, 0, rewriting) == r2;
  }

  // ----- An assignment under two IFs -----

  /** 10 A = 5, 20 IF 1 = 1 THEN IF A = 5 THEN A(XY) = 1, 30 END. */
  const UNDER_TWO_IFS: seq<Line> := [
    Line(10, Let(Scalar(Register(0)), Expr(false, Lit(5), End))), Line(20, If(ONE, Equal, ONE, FORGETFUL)), Line(30, Finish)]

  lemma FiveAssigned(nos: seq<Int16>, text: set<int>, c: Core)
    requires ValidCore(|nos|, c)
    ensures var s := Let(Scalar(Register(0)), Expr(false, Lit(5), End));
            && ValidStmt(|nos|, s)
            && Exec(nos, text, c, s)
               == Done(c.(env := c.env.(registers := c.env.registers[0 := c.env.registers[0].(value := 5)])), s, 0)
  {
  }

  /** XY is undefined, and the program runs to its END without an error. */
  lemma UndefinedIndexUnnoticed(text: set<int>, registers: seq<Cell>, mem: seq<Byte>, end: nat, out: seq<Printed>)
    requires |registers| == NUM_REGISTERS && |mem| == MEMORY && end <= MEMORY
    ensures Proper(Begin(UNDER_TWO_IFS, registers, mem, end, out))
    ensures var r := Steps(text, Begin(UNDER_TWO_IFS, registers, mem, end, out), 3, false); r.Ended? && r.error == 0
  {
    var r := Begin(UNDER_TWO_IFS, registers, mem, end, out);
    ForgetfulValid(3);
    BeginProper(UNDER_TWO_IFS, registers, mem, end, out);
    assert Nos(UNDER_TWO_IFS) == [10, 20, 30];
    StepProper(text, r, false);
    var c := Arrive([10, 20, 30], r.core);
    FiveAssigned([10, 20, 30], text, c);
    hide Exec;
    var r1 := Step(text, r, false);
    assert r1.Going? && r1.lines == UNDER_TWO_IFS && r1.core.next == Some(1);
    StepProper(text, r1, false);
    var c1 := Arrive([10, 20, 30], r1.core);
    LetTwice([10, 20, 30], text, c1);
    var r2 := Step(text, r1, false);
    assert r2.Going? && r2.lines == UNDER_TWO_IFS && r2.core.next == Some(2);
    StepProper(text, r2, false);
    FinishEnds([10, 20, 30], text, Arrive([10, 20, 30], r2.core));
    var r3 := Step(text, r2, false);
    assert Steps(text, r2, 1, false) == Steps(text, r3, 0, false) == r3;
  }

  lemma ForgetfulValid(n: nat)
    ensures ValidStmt(n, FORGETFUL) && ValidStmt(n, If(ONE, Equal, ONE, FORGETFUL))
  {
  }

  lemma FinishEnds(nos: seq<Int16>, text: set<int>, c: Core)
    requires ValidCore(|nos|, c)
    ensures Exec(nos, text, c, Finish) == Done(c.(running := false), Finish, 0)
  {
  }
}
