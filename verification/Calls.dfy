/** GOSUB and RETURN, jumps, and what else moves a run from line to line. */
module Calls {
  import opened Bytes
  import opened Expressions
  import opened Statements
  import opened Programs
  import opened Loops

  /** After `n` steps the run is about to run line `k`, with the return stack as it was. */
  ghost predicate Stretch(text: set<int>, r: Run, n: nat, k: nat, rewriting: bool) {
    && Proper(r) && r.Going?
    && var b := Steps(text, r, n, rewriting);
       AtLine(b, k) && b.core.stack == r.core.stack
  }

  /** Stretches follow each other. */
  lemma StretchJoin(text: set<int>, r: Run, n: nat, k: nat, m: nat, l: nat, rewriting: bool)
    requires Stretch(text, r, n, k, rewriting) && Stretch(text, Steps(text, r, n, rewriting), m, l, rewriting)
    ensures Stretch(text, r, n + m, l, rewriting)
  {
    hide Steps, Proper;
    StepsAdd(text, r, n, m, rewriting);
  }

  // ----- Subroutines -----

  /** About to call a subroutine at line `target` from line `g`: by a GOSUB that finds it, or by a direct call. */
  ghost predicate Calling(r: Run, g: nat, target: nat) {
    && Proper(r) && AtLine(r, g) && g < |r.lines| && |r.core.stack| < RETURN_STACK_LIMIT
    && match r.lines[g].stmt
       case Gosub(n) => Search(Nos(r.lines), g, n) == Some(target)
       case Jumpsub(line) => line == Some(target)
       case _ => false
  }

  /** The call goes to the subroutine, with the calling line on the return stack. */
  lemma CallEnters(text: set<int>, r: Run, g: nat, target: nat, rewriting: bool)
    requires Calling(r, g, target)
    ensures var e := Step(text, r, rewriting);
            && AtLine(e, target) && e.core.stack == r.core.stack + [Frame(g, None)]
            && e.core.env == r.core.env && e.core.out == r.core.out
            && Nos(e.lines) == Nos(r.lines) && |e.lines| == |r.lines|
  {
    hide ValidStmt, Search;
  }

  /** A RETURN goes to the line after the one on the return stack. */
  lemma ReturnGoes(text: set<int>, b: Run, k: nat, stack: seq<Frame>, g: nat, loop: Option<Var>, rewriting: bool)
    requires Proper(b) && AtLine(b, k) && k < |b.lines| && b.lines[k].stmt == Return
    requires b.core.stack == stack + [Frame(g, loop)]
    ensures var r := Step(text, b, rewriting);
            && !r.Crashed? && r.core.stack == stack && r.core.env == b.core.env && r.core.out == b.core.out
            && (g + 1 < |b.lines| ==> AtLine(r, g + 1))
            && (g + 1 >= |b.lines| ==> r.Ended? && r.error == ERROR_GOTO)
  {
    hide ValidStmt;
    assert b.core.stack[..|stack|] == stack;
  }

  /** With nothing to return to, a RETURN and a NEXT end the run, each with its own error; so does a NEXT whose
      variable is not that of the frame on top. */
  lemma NothingToReturnTo(text: set<int>, r: Run, k: nat, rewriting: bool)
    requires Proper(r) && AtLine(r, k) && k < |r.lines|
    ensures var r', s := Step(text, r, rewriting), r.lines[k].stmt;
            && (s.Return? && r.core.stack == [] ==> r'.Ended? && r'.error == ERROR_RETSTACK_EMPTY && OnlyMoved(r.core, r'.core))
            && (s.Next? && r.core.stack == [] ==> r'.Ended? && r'.error == ERROR_SYNTAX && OnlyMoved(r.core, r'.core))
            && (s.Next? && r.core.stack != [] && Top(r.core).loop != Some(s.v) ==> r'.Ended? && r'.error == ERROR_SYNTAX)
  {
    hide ValidStmt;
  }

  /** A subroutine that comes to a RETURN with the return stack as at its start continues after the line that
      called it, with the return stack as before the call, and with what it did to variables and output; where
      no line follows, the run ends with the GOTO error. */
  lemma CallReturns(text: set<int>, r: Run, g: nat, target: nat, n: nat, k: nat, rewriting: bool)
    requires Calling(r, g, target) && Stretch(text, Step(text, r, rewriting), n, k, rewriting)
    requires var b := Steps(text, Step(text, r, rewriting), n, rewriting); k < |b.lines| && b.lines[k].stmt == Return
    ensures g + 1 < |r.lines| ==> Stretch(text, r, n + 2, g + 1, rewriting)
    ensures var b, r' := Steps(text, Step(text, r, rewriting), n, rewriting), Steps(text, r, n + 2, rewriting);
            && !r'.Crashed? && r'.core.stack == r.core.stack && r'.core.env == b.core.env && r'.core.out == b.core.out
            && (g + 1 == |r.lines| ==> r'.Ended? && r'.error == ERROR_GOTO)
  {
    hide Step, Steps, Proper;
    var e := Step(text, r, rewriting);
    var b := Steps(text, e, n, rewriting);
    CallEnters(text, r, g, target, rewriting);
    LinesStay(text, e, n, rewriting);
    ReturnGoes(text, b, k, r.core.stack, g, None, rewriting);
    StepsOne(text, r, rewriting);
    StepsOne(text, b, rewriting);
    StepsAdd(text, r, 1, n + 1, rewriting);
    StepsAdd(text, e, n, 1, rewriting);
  }

  /** So a call from inside a subroutine is a stretch of it: subroutines nest. */
  lemma NestedCall(text: set<int>, r: Run, n1: nat, g: nat, target: nat, n: nat, k: nat, n2: nat, l: nat, rewriting: bool)
    requires Stretch(text, r, n1, g, rewriting)
    requires var c := Steps(text, r, n1, rewriting);
             && Calling(c, g, target) && g + 1 < |c.lines| && Stretch(text, Step(text, c, rewriting), n, k, rewriting)
             && (var b := Steps(text, Step(text, c, rewriting), n, rewriting); k < |b.lines| && b.lines[k].stmt == Return)
             && Stretch(text, Steps(text, c, n + 2, rewriting), n2, l, rewriting)
    ensures Stretch(text, r, n1 + (n + 2) + n2, l, rewriting)
  {
    hide Step, Steps, Proper, Stretch;
    StretchStarts(text, r, n1, g, rewriting);
    var c := Steps(text, r, n1, rewriting);
    CallReturns(text, c, g, target, n, k, rewriting);
    StretchJoin(text, r, n1, g, n + 2, g + 1, rewriting);
    StepsAdd(text, r, n1, n + 2, rewriting);
    StretchJoin(text, r, n1 + (n + 2), g + 1, n2, l, rewriting);
  }

  lemma StretchStarts(text: set<int>, r: Run, n: nat, k: nat, rewriting: bool)
    requires Stretch(text, r, n, k, rewriting)
    ensures Proper(r)
  {
  }

  lemma {:induction false} LinesStay(text: set<int>, r: Run, n: nat, rewriting: bool)
    requires Proper(r) && !r.Crashed?
    ensures var r' := Steps(text, r, n, rewriting); !r'.Crashed? ==> |r'.lines| == |r.lines| && Nos(r'.lines) == Nos(r.lines)
    decreases n
  {
    hide Proper, Exec;
    if 0 < n {
      var r1 := Step(text, r, rewriting);
      StepProper(text, r, rewriting);
      if r1.Crashed? {
        CrashedStays(text, n - 1, rewriting);
      } else {
        LineStays(text, r, rewriting);
        hide Step;
        LinesStay(text, r1, n - 1, rewriting);
      }
    }
  }

  lemma LineStays(text: set<int>, r: Run, rewriting: bool)
    requires Proper(r) && !r.Crashed? && !Step(text, r, rewriting).Crashed?
    ensures |Step(text, r, rewriting).lines| == |r.lines| && Nos(Step(text, r, rewriting).lines) == Nos(r.lines)
  {
    hide Exec;
  }

  // ----- Other lines -----

  /** The line after `g`, or the end of the run with the GOTO error where there is none. */
  ghost predicate GoesOn(r: Run, r': Run, g: nat)
    requires r.Going?
  {
    && !r'.Crashed?
    && (g + 1 < |r.lines| ==> AtLine(r', g + 1))
    && (g + 1 >= |r.lines| ==> r'.Ended? && r'.error == ERROR_GOTO)
  }

  /** Only control has moved. */
  predicate OnlyMoved(c: Core, c': Core) {
    c'.stack == c.stack && c'.env == c.env && c'.end == c.end && c'.out == c.out
  }

  /** On ascending line numbers a GOTO that may go forwards, or back to above the first number, lands on the
      first line at or above its target, and ends the run with the GOTO error where there is none. */
  lemma GotoLands(text: set<int>, r: Run, g: nat, n: Int16, target: Option<nat>, rewriting: bool)
    requires Proper(r) && AtLine(r, g) && g < |r.lines| && r.lines[g].stmt == Goto(n) && Ascending(Nos(r.lines))
    requires r.lines[g].no <= n || r.lines[0].no < n
    requires IsFirstAtLeast(Nos(r.lines), n, target)
    ensures var r' := Step(text, r, rewriting);
            && !r'.Crashed? && OnlyMoved(r.core, r'.core)
            && (target.Some? ==> AtLine(r', target.value))
            && (target.None? ==> r'.Ended? && r'.error == ERROR_GOTO)
  {
    hide ValidStmt, Search;
    Statements.SearchExact(Nos(r.lines), g, n);
  }

  /** An IF before a GOTO jumps exactly where its condition holds, and else goes on. */
  lemma IfGoto(text: set<int>, r: Run, g: nat, left: Expr, comparison: Comparison, right: Expr, target: nat, a: Int16, b: Int16,
               rewriting: bool)
    requires Proper(r) && AtLine(r, g) && g < |r.lines| && r.lines[g].stmt == If(left, comparison, right, Jumpto(Some(target)))
    requires ValidEnv(r.core.env) && ValidExpr(left) && ValidExpr(right) && target < |r.lines|
    requires ClearExpr(text, r.core.env, left) && ClearExpr(text, r.core.env, right)
    requires Meaning(r.core.env, left) == Ok(a) && Meaning(r.core.env, right) == Ok(b)
    ensures var r' := Step(text, r, rewriting);
            && !r'.Crashed? && OnlyMoved(r.core, r'.core)
            && (Relation(comparison, a - b) ==> AtLine(r', target))
            && (!Relation(comparison, a - b) ==> GoesOn(r, r', g))
  {
    hide Meaning, ClearExpr, ValidExpr;
    var nos, c := Nos(r.lines), Arrive(Nos(r.lines), r.core);
    ArriveValid(nos, r.core);
    assert Exec(nos, text, c, Jumpto(Some(target))) == Done(c.(next := Some(target)), Jumpto(Some(target)), 0);
    if rewriting {
      assert SetStmt(r.lines, g, r.lines[g].stmt) == r.lines;
    }
  }

  /** An IF whose condition has no value ends the run with the error of its first side that has none. */
  lemma IfFails(text: set<int>, r: Run, g: nat, left: Expr, comparison: Comparison, right: Expr, body: Stmt, rewriting: bool)
    requires Proper(r) && AtLine(r, g) && g < |r.lines| && r.lines[g].stmt == If(left, comparison, right, body)
    requires ValidEnv(r.core.env) && ValidExpr(left) && ValidExpr(right)
    requires ClearExpr(text, r.core.env, left) && ClearExpr(text, r.core.env, right)
    requires Meaning(r.core.env, left).Err? || Meaning(r.core.env, right).Err?
    ensures var r', x, y := Step(text, r, rewriting), Meaning(r.core.env, left), Meaning(r.core.env, right);
            && r'.Ended? && OnlyMoved(r.core, r'.core) && r'.error == if x.Err? then x.error else y.error
  {
    hide Meaning, ClearExpr, ValidExpr;
  }

  /** A run starts at the first line, with no named variables and nothing to return to; registers and memory stay. */
  lemma RunStarts(lines: seq<Line>, registers: seq<Cell>, mem: seq<Byte>, end: nat, out: seq<Printed>, v: Var)
    requires ValidLines(lines) && |registers| == NUM_REGISTERS && |mem| == MEMORY && end <= MEMORY && ValidVar(v)
    ensures var r := Begin(lines, registers, mem, end, out);
            && Proper(r) && AtLine(r, 0) && r.lines == lines && r.core.stack == [] && r.core.out == out && r.core.end == end
            && (v.Named? ==> ScalarValue(r.core.env, v) == Err(ERROR_UNDEFINED_VAR))
            && (v.Register? ==> ScalarValue(r.core.env, v) == Ok(registers[v.letter].value))
            && r.core.env.mem == mem
  {
    BeginProper(lines, registers, mem, end, out);
  }

  /** What a comparison says of the difference of its sides. */
  predicate Relation(comparison: Comparison, difference: int) {
    match comparison
    case Equal => difference == 0
    case Less => difference < 0
    case Greater => difference > 0
    case AtMost => difference <= 0
    case AtLeast => difference >= 0
  }

  /** An END ends the run without an error, and a remark does nothing. */
  lemma EndAndRemark(text: set<int>, r: Run, g: nat, rewriting: bool)
    requires Proper(r) && AtLine(r, g) && g < |r.lines|
    ensures var r' := Step(text, r, rewriting);
            && (r.lines[g].stmt.Finish? ==> r'.Ended? && r'.error == 0 && OnlyMoved(r.core, r'.core))
            && (r.lines[g].stmt.Remark? ==> GoesOn(r, r', g) && OnlyMoved(r.core, r'.core))
  {
  }

  /** What an item shows. */
  predicate Shows(env: Env, item: PrintItem, shown: Printed)
    requires ValidEnv(env) && ValidItem(item)
  {
    match item
    case Text(bytes) => shown == Word(bytes)
    case Number(e) => shown.Value? && Meaning(env, e) == Ok(shown.n)
  }

  /** A PRINT without an error prints its texts and the values of its expressions, in order, and a new line. */
  lemma {:induction false} PrintShows(text: set<int>, c: Core, items: seq<PrintItem>, s: Stmt) returns (shown: seq<Printed>)
    requires ValidEnv(c.env) && ValidItems(items)
    requires ExecPrint(text, c, items, s).Done? && ExecPrint(text, c, items, s).error == 0
    ensures ExecPrint(text, c, items, s).core == c.(out := c.out + shown)
    ensures |shown| == |items| + 1 && shown[|items|] == NewLine
    ensures forall i :: 0 <= i < |items| ==> ValidItem(items[i]) && Shows(c.env, items[i], shown[i])
    decreases |items|
  {
    hide Meaning, ClearExpr, ValidExpr;
    if items == [] {
      return [NewLine];
    }
    assert ValidItem(items[0]);
    var first := if items[0].Text? then Word(items[0].bytes) else Value(Meaning(c.env, items[0].e).value);
    var d := c.(out := c.out + [first]);
    assert ExecPrint(text, c, items, s) == ExecPrint(text, d, items[1..], s);
    var rest := PrintShows(text, d, items[1..], s);
    shown := [first] + rest;
    assert d.out + rest == c.out + shown;
    forall i | 0 <= i < |items| ensures ValidItem(items[i]) && Shows(c.env, items[i], shown[i]) {
      if 0 < i {
        assert items[i] == items[1..][i - 1];
      }
    }
  }

  /** One that fails has printed, in order, what comes before the first expression without a value, and ends
      with its error. */
  lemma {:induction false} PrintStops(text: set<int>, c: Core, items: seq<PrintItem>, s: Stmt) returns (shown: seq<Printed>)
    requires ValidEnv(c.env) && ValidItems(items)
    requires ExecPrint(text, c, items, s).Done? && ExecPrint(text, c, items, s).error != 0
    ensures ExecPrint(text, c, items, s).core == c.(out := c.out + shown)
    ensures var k := |shown|;
            && k < |items| && ValidItem(items[k]) && items[k].Number?
            && Meaning(c.env, items[k].e).Err? && Meaning(c.env, items[k].e).error == ExecPrint(text, c, items, s).error
    ensures forall i :: 0 <= i < |shown| ==> ValidItem(items[i]) && Shows(c.env, items[i], shown[i])
    decreases |items|
  {
    hide Meaning, ClearExpr, ValidExpr;
    assert ValidItem(items[0]);
    if items[0].Number? && Meaning(c.env, items[0].e).Err? {
      assert c.out + [] == c.out;
      return [];
    }
    var first := if items[0].Text? then Word(items[0].bytes) else Value(Meaning(c.env, items[0].e).value);
    var d := c.(out := c.out + [first]);
    assert ExecPrint(text, c, items, s) == ExecPrint(text, d, items[1..], s);
    var rest := PrintStops(text, d, items[1..], s);
    shown := [first] + rest;
    assert d.out + rest == c.out + shown;
    assert items[|shown|] == items[1..][|rest|];
    forall i | 0 <= i < |shown| ensures ValidItem(items[i]) && Shows(c.env, items[i], shown[i]) {
      if 0 < i {
        assert items[i] == items[1..][i - 1];
      }
    }
  }

  /** An assignment to a defined place whose expression has no value ends the run with that error, and assigns
      nothing. */
  lemma LetFails(text: set<int>, r: Run, g: nat, target: Operand, value: Expr, rewriting: bool)
    requires Proper(r) && AtLine(r, g) && g < |r.lines| && r.lines[g].stmt == Let(target, value)
    requires ValidEnv(r.core.env) && !target.Lit? && ValidOperand(target) && ValidExpr(value)
    requires ClearOperand(text, r.core.env, target) && ClearExpr(text, r.core.env, value)
    requires PlaceOf(r.core.env, target).Ok? && Meaning(r.core.env, value).Err?
    ensures var r' := Step(text, r, rewriting);
            r'.Ended? && OnlyMoved(r.core, r'.core) && r'.error == Meaning(r.core.env, value).error
  {
    hide Meaning, ClearExpr, ClearOperand, PlaceOf, ValidExpr, ValidOperand;
  }
}
