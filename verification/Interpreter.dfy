/** The BASIC interpreter on program memory: lines are inserted as linked records, and a run reads
    their tokens and overwrites its own jumps. */
module Interpreters {
  import opened Bytes
  import opened Expressions
  import opened Evaluators
  import opened Statements
  import opened Programs
  import opened Tokens
  import opened ProgramTexts
  import Loops

  function DoComparison(op: Byte, left: Int16, right: Int16): int {
    if op == OP_EQUAL then if left == right then 1 else 0
    else if op == OP_LT then if left < right then 1 else 0
    else if op == OP_GT then if left > right then 1 else 0
    else if op == OP_LTEQ then if left <= right then 1 else 0
    else if op == OP_GTEQ then if left >= right then 1 else 0
    else -1
  }

  lemma ComparisonRead(comparison: Comparison, left: Int16, right: Int16)
    ensures IsComparison(ComparisonCode(comparison))
    ensures DoComparison(ComparisonCode(comparison), left, right) == if Compare(comparison, left, right) then 1 else 0
    ensures forall code: Byte :: DoComparison(code, left, right) >= 0 <==> IsComparison(code)
  {
  }

  class Interpreter {
    const mem: array<Byte>
    const registers: array<Cell>
    const eval: Evaluator
    const start: Word
    var endPtr: nat
    var lastInserted: Word
    var currentLine: Word
    var nextLine: Word
    var running: bool
    var context: seq<(VarName, Int16)>
    var stack: seq<Pending>
    var out: seq<Printed>
    /** The records in program memory, and while it runs, its lines. */
    ghost var addrs: seq<Word>
    ghost var recs: seq<Rec>
    ghost var lines: seq<Line>

    ghost predicate Apart() {
      && mem.Length == MEMORY && registers.Length == NUM_REGISTERS && eval.Valid() && mem as object != eval.numstack
      && registers as object != eval.numstack && registers as object != mem
    }

    ghost predicate Shaped()
      reads this
    {
      && Apart() && Placed(start, addrs, recs, endPtr)
      && lastInserted == (if addrs == [] then 0 else addrs[|addrs| - 1])
    }

    ghost predicate Valid()
      reads this, mem
    {
      Shaped() && Laid(mem[..], addrs, recs)
    }

    /** A new interpreter, on whatever its memory and registers hold. */
    constructor (start: Word, memory: seq<Byte>, cells: seq<Cell>)
      requires 0 < start && |memory| == MEMORY && |cells| == NUM_REGISTERS
      ensures Valid() && addrs == [] && endPtr == start && this.start == start
      ensures fresh(mem) && fresh(registers) && fresh(eval) && fresh(eval.numstack)
    {
      this.start := start;
      mem := new Byte[MEMORY](i requires 0 <= i < MEMORY => memory[i]);
      registers := new Cell[NUM_REGISTERS](i requires 0 <= i < NUM_REGISTERS => cells[i]);
      eval := new Evaluator();
      out := [];
      endPtr, lastInserted, currentLine, nextLine, running, context, stack := start, 0, start, 0, false, [], [];
      addrs, recs, lines := [], [], [];
      new;
      New();
    }

    // ----- Words -----

    function Peek(a: nat): Word
      requires a + 2 <= mem.Length
      reads mem
    {
      ToWord(mem[a], mem[a + 1])
    }

    // The header of a line record.

    function LineNo(line: Word): Int16
      requires line + PROG_HDR_SIZE <= mem.Length
      reads mem
    {
      Wrap(Peek(line))
    }

    function PrevLine(line: Word): Word
      requires line + PROG_HDR_SIZE <= mem.Length
      reads mem
    {
      Peek(line + 2)
    }

    function NextLine(line: Word): Word
      requires line + PROG_HDR_SIZE <= mem.Length
      reads mem
    {
      Peek(line + 4)
    }

    method Poke(a: nat, w: Word)
      requires a + 2 <= mem.Length
      modifies mem
      ensures ToWord(mem[a], mem[a + 1]) == w
      ensures forall i :: 0 <= i < mem.Length && !(a <= i < a + 2) ==> mem[i] == old(mem[i])
    {
      mem[a] := w % 0x100;
      mem[a + 1] := w / 0x100;
      TwoBytes([mem[a], mem[a + 1]]);
    }

    // ----- Program memory -----

    method New()
      requires Apart() && 0 < start
      modifies this, registers
      ensures Valid() && addrs == [] && endPtr == start && !running && context == [] && stack == []
      ensures forall i :: 0 <= i < NUM_REGISTERS ==> registers[i] == old(registers[i]).(defined := false)
      ensures out == old(out)
    {
      endPtr := start;
      currentLine := start;
      lastInserted := 0;
      running := false;
      for i := 0 to NUM_REGISTERS
        modifies registers
        invariant forall j :: 0 <= j < NUM_REGISTERS ==>
                    registers[j] == if j < i then old(registers[j]).(defined := false) else old(registers[j])
      {
        registers[i] := registers[i].(defined := false);
      }
      context := [];
      stack := [];
      addrs, recs, lines := [], [], [];
    }

    /** Copies bytes to memory. */
    method Copy(to: nat, bs: seq<Byte>)
      requires to + |bs| <= mem.Length
      modifies mem
      ensures Here(mem[..], to, bs)
      ensures forall i :: 0 <= i < mem.Length && !(to <= i < to + |bs|) ==> mem[i] == old(mem[i])
    {
      for i := 0 to |bs|
        invariant forall j :: 0 <= j < i ==> mem[to + j] == bs[j]
        invariant forall j :: 0 <= j < mem.Length && !(to <= j < to + |bs|) ==> mem[j] == old(mem[j])
      {
        mem[to + i] := bs[i];
      }
      assert mem[..][to..to + |bs|] == bs;
    }

    /** Writes a record at the end, and links it behind the last one. */
    method WriteRecord(line: Word, no: Int16, body: seq<Byte>)
      requires mem.Length == MEMORY && line + PROG_HDR_SIZE + |body| <= MEMORY
      requires lastInserted == (if addrs == [] then 0 else addrs[|addrs| - 1])
      requires addrs != [] ==> 0 < lastInserted && lastInserted + PROG_HDR_SIZE <= line
      modifies mem
      ensures Inserted(old(mem[..]), mem[..], addrs, line, Rec(no, body))
    {
      hide Here, Pattern, ToWord;
      if lastInserted != 0 { Poke(lastInserted + 4, line); }
      Poke(line, Pattern(no));
      Poke(line + 2, lastInserted);
      Poke(line + 4, 0);
      Copy(line + PROG_HDR_SIZE, body);
    }

    /** Appends a record. */
    method Append(no: Int16, body: seq<Byte>)
      requires Valid() && endPtr + PROG_HDR_SIZE + |body| <= MEMORY && (addrs == [] ==> endPtr == start)
      modifies this`endPtr, this`lastInserted, this`addrs, this`recs, mem
      ensures Valid() && endPtr == old(endPtr) + PROG_HDR_SIZE + |body|
      ensures addrs == old(addrs) + [old(endPtr)] && recs == old(recs) + [Rec(no, body)]
    {
      PlacedBounds(start, addrs, recs, endPtr);
      hide Laid, Placed, Inserted;
      var line: Word, rec := endPtr, Rec(no, body);
      WriteRecord(line, no, body);
      InsertKeeps(old(mem[..]), mem[..], start, addrs, recs, line, rec);
      InsertPlaced(start, addrs, recs, line, rec);
      lastInserted := line;
      endPtr := endPtr + |body| + PROG_HDR_SIZE;
      addrs, recs := addrs + [line], recs + [rec];
    }

    /** Inserts a line: the number token and the statement `ts` that follows it. */
    method Insert(toks: seq<Byte>, ghost lineno: Int16, ghost ts: seq<Tok>) returns (error: int)
      requires Valid() && ValidToks(ts) && |AllBytes(ts)| < 0xff
      requires Here(toks, 0, NumberBytes(lineno) + (AllBytes(ts) + [TOK_TERMINATOR]))
      requires endPtr + PROG_HDR_SIZE + |AllBytes(ts)| < MEMORY && (addrs == [] ==> endPtr == start)
      modifies this`endPtr, this`lastInserted, this`addrs, this`recs, mem
      ensures Valid() && error == 0 && endPtr == old(endPtr) + PROG_HDR_SIZE + |AllBytes(ts)| + 1
      ensures addrs == old(addrs) + [old(endPtr)]
      ensures recs == old(recs) + [Rec(lineno, AllBytes(ts) + [TOK_TERMINATOR])]
    {
      hide Here, AllBytes, Valid, Pattern, Wrap, ToWord, NumberBytes, ValidToks;
      ghost var body := AllBytes(ts) + [TOK_TERMINATOR];
      HereSplit(toks, 0, NumberBytes(lineno), body);
      NumberHere(toks, 0, lineno);
      if toks[0] != TOK_NUMERIC { return ERROR_SYNTAX; }
      var no := Wrap(ToWord(toks[1], toks[2]));
      var size := StatementSize(toks, NUMERIC_SIZE, ts);
      assert size == |body|;
      BytesHere(toks, NUMERIC_SIZE, body);
      var stmt := toks[NUMERIC_SIZE..NUMERIC_SIZE + size];
      assert stmt == body;
      Append(no, stmt);
      return 0;
    }

    // ----- A run and the machine it shows -----

    ghost function Text(): set<int>
      requires |addrs| == |recs|
      reads this
    {
      TextOf(addrs, recs)
    }

    /** The run is in state `c`, whichever line is current. */
    ghost predicate Between(c: Core)
      reads this, mem, registers
    {
      && |addrs| == |recs| == |lines| && ValidLines(lines) && ValidCore(|lines|, c)
      && nextLine == PtrTo(addrs, c.next)
      && StackShown(addrs, lines, stack, c.stack)
      && registers[..] == c.env.registers && context == c.env.context && SameOutside(Text(), c.env.mem, mem[..])
      && endPtr == c.end && running == c.running && out == c.out
    }

    /** The run is in state `c`. */
    ghost predicate Shows(c: Core)
      reads this, mem, registers
    {
      Between(c) && currentLine == addrs[c.cur]
    }

    ghost predicate Running(c: Core)
      reads this, mem, registers
    {
      Shows(c) && Valid() && recs == Encode(addrs, lines)
    }

    /** Statement `s`, or the one at the end of its IFs, is the end of the current line, at `p`. */
    ghost predicate AtStmt(c: Core, p: nat, s: Stmt)
      requires Shows(c)
      reads this, mem, registers
    {
      LastOf(c.cur, p, s) && Here(mem[..], p, StmtTokens(addrs, s) + [TOK_TERMINATOR])
    }

    ghost predicate LastOf(cur: nat, p: nat, s: Stmt)
      requires cur < |addrs| == |recs| == |lines|
      reads this`addrs, this`recs, this`lines
    {
      && ValidStmt(|addrs|, s)
      && addrs[cur] + PROG_HDR_SIZE <= p
      && p + |StmtTokens(addrs, s)| + 1 == RecEnd(addrs, recs, cur)
      && Innermost(s) == Innermost(lines[cur].stmt)
    }

    /** What the machine does with a statement. */
    ghost function Result(c: Core, s: Stmt): Outcome
      requires |addrs| == |recs| == |lines| && ValidCore(|lines|, c) && ValidStmt(|lines|, s)
      reads this
    {
      Exec(Nos(lines), Text(), c, s)
    }

    /** The interpreter did what the machine does, and left the statement's tokens as the machine has it. */
    ghost predicate Ran(r: Outcome, before: seq<Byte>, p: nat, error: int)
      reads this, mem, registers
    {
      && r.Done? && Shows(r.core) && Shaped() && error == r.error && ValidStmt(|addrs|, r.stmt)
      && TextAfter(Text(), before, mem[..], p, StmtTokens(addrs, r.stmt) + [TOK_TERMINATOR])
    }

    /** Before a statement runs: its outcome, and its tokens are there. */
    lemma Due(c: Core, p: nat, s: Stmt)
      requires Running(c) && AtStmt(c, p, s)
      ensures TextAfter(Text(), mem[..], mem[..], p, StmtTokens(addrs, s) + [TOK_TERMINATOR])
      ensures Here(mem[..], p, StmtTokens(addrs, s)) && ValidStmt(|addrs|, s)
      ensures Shaped() && |addrs| == |recs| == |lines| && ValidCore(|lines|, c)
    {
      hide Here, TextAfter, StackShown, SameOutside, TextOf, StmtTokens;
      TextUntouched(Text(), mem[..], mem[..], p, StmtTokens(addrs, s) + [TOK_TERMINATOR]);
      HereSplit(mem[..], p, StmtTokens(addrs, s), [TOK_TERMINATOR]);
    }

    /** A statement that leaves memory alone. */
    lemma RanQuietly(r: Outcome, before: seq<Byte>, p: nat, s: Stmt, error: int)
      requires r.Done? && r.stmt == s && error == r.error && Shows(r.core) && Shaped() && mem[..] == before
      requires ValidStmt(|addrs|, s) && TextAfter(Text(), before, before, p, StmtTokens(addrs, s) + [TOK_TERMINATOR])
      ensures Ran(r, before, p, error)
    {
    }

    /** A statement that leaves the program text alone. */
    lemma RanClear(r: Outcome, before: seq<Byte>, p: nat, s: Stmt, error: int)
      requires r.Done? && r.stmt == s && error == r.error && Shows(r.core) && Shaped() && |before| == MEMORY
      requires ValidStmt(|addrs|, s) && Here(before, p, StmtTokens(addrs, s) + [TOK_TERMINATOR])
      requires forall a :: p <= a < p + |StmtTokens(addrs, s)| + 1 ==> a in Text()
      requires forall a :: 0 <= a < MEMORY && a in Text() ==> mem[a] == before[a]
      ensures Ran(r, before, p, error)
    {
      hide Here, StmtTokens, TextOf, StackShown, SameOutside, ValidLines, TextAfter;
      TextUntouched(Text(), before, mem[..], p, StmtTokens(addrs, s) + [TOK_TERMINATOR]);
    }

    // ----- Control -----

    lemma LinkAt(i: nat)
      requires Valid() && i < |addrs|
      ensures |recs| == |addrs| && addrs[i] + PROG_HDR_SIZE <= mem.Length && 0 < addrs[i]
      ensures LineNo(addrs[i]) == RecNos(recs)[i]
      ensures PrevLine(addrs[i]) == (if i == 0 then 0 else addrs[i - 1]) && (PrevLine(addrs[i]) == 0 <==> i == 0)
      ensures NextLine(addrs[i]) == (if i + 1 < |addrs| then addrs[i + 1] else 0)
      ensures NextLine(addrs[i]) == 0 <==> i + 1 == |addrs|
    {
      hide Here;
      assert RecHere(mem[..], addrs, recs, i);
    }

    /** The search for a line number, along the links from the current line. */
    method SearchLineno(lineno: Int16, ghost cur: nat) returns (line: Word)
      requires Valid() && cur < |addrs| && currentLine == addrs[cur]
      ensures line == PtrTo(addrs, Search(RecNos(recs), cur, lineno))
    {
      hide Valid, LineNo, PrevLine, NextLine, Back, Ahead;
      ghost var nos, i: nat := RecNos(recs), cur;
      line := currentLine;
      LinkAt(i);
      if lineno < LineNo(line) {
        BackStep(nos, i, lineno);
        while LineNo(line) >= lineno
          invariant i <= cur && line == addrs[i] && line + PROG_HDR_SIZE <= mem.Length && LineNo(line) == nos[i]
          invariant Back(nos, cur, lineno) == Back(nos, i, lineno)
          decreases i
        {
          LinkAt(i);
          BackStep(nos, i, lineno);
          if PrevLine(line) == 0 { return 0; }
          line := PrevLine(line);
          i := i - 1;
          LinkAt(i);
        }
        LinkAt(i);
        BackStep(nos, i, lineno);
        return NextLine(line);
      } else {
        AheadStep(nos, i, lineno);
        while LineNo(line) < lineno
          invariant i < |addrs| && line == addrs[i] && line + PROG_HDR_SIZE <= mem.Length && LineNo(line) == nos[i]
          invariant Ahead(nos, cur, lineno) == Ahead(nos, i, lineno)
          decreases |addrs| - i
        {
          LinkAt(i);
          AheadStep(nos, i, lineno);
          if NextLine(line) == 0 { return 0; }
          line := NextLine(line);
          i := i + 1;
          LinkAt(i);
        }
        AheadStep(nos, i, lineno);
      }
    }

    method TransferControlDirect(line: Word, ghost c: Core, ghost next: Option<nat>)
      requires Shows(c) && Shaped() && line == PtrTo(addrs, next) && (next.Some? ==> next.value < |addrs|)
      modifies this`nextLine
      ensures Shows(c.(next := next)) && Shaped()
    {
      hide StackShown, SameOutside, ValidLines, TextOf, Placed;
      nextLine := line;
    }

    lemma NosAlike(c: Core)
      requires Running(c)
      ensures RecNos(recs) == Nos(lines) && c.cur < |addrs| && currentLine == addrs[c.cur]
    {
      hide StackShown, SameOutside, StmtTokens;
    }

    method TransferControl(lineno: Int16, ghost c: Core) returns (line: Word)
      requires Running(c)
      modifies this`nextLine
      ensures var next := Search(Nos(lines), c.cur, lineno); line == PtrTo(addrs, next) && Shows(c.(next := next)) && Shaped()
    {
      hide Running, Shows, Shaped, Valid, Search, Encode, PtrTo;
      RunningShows(c);
      ShowsFacts(c);
      NosAlike(c);
      line := SearchLineno(lineno, c.cur);
      TransferControlDirect(line, c, Search(Nos(lines), c.cur, lineno));
    }

    method PushReturn(line: Word, vartoken: Word, ghost c: Core, ghost frame: Frame)
      requires Shows(c) && Shaped() && |c.stack| < RETURN_STACK_LIMIT && frame.line < |addrs| && line == addrs[frame.line]
      requires VarTokenShown(addrs, lines, vartoken, frame.loop)
      modifies this`stack
      ensures Shows(Push(c, frame)) && Shaped()
    {
      hide StackShown, SameOutside, ValidLines, TextOf, Placed, VarTokenShown;
      StackPushed(addrs, lines, stack, c.stack, Pending(line, vartoken), frame);
      stack := stack + [Pending(line, vartoken)];
    }

    method PopReturn(ghost c: Core) returns (error: int, line: Word, vartoken: Word)
      requires Shows(c) && Shaped()
      modifies this`stack
      ensures c.stack == [] ==> error == ERROR_RETSTACK_EMPTY && Shows(c)
      ensures c.stack != [] ==>
                && error == 0 && Shows(Pop(c)) && Top(c).line < |addrs| && line == addrs[Top(c).line]
                && VarTokenShown(addrs, lines, vartoken, Top(c).loop)
      ensures Shaped()
    {
      hide StackShown, SameOutside, ValidLines, TextOf, Placed, VarTokenShown;
      StackPopped(addrs, lines, stack, c.stack);
      if |stack| == 0 { return ERROR_RETSTACK_EMPTY, 0, 0; }
      var top := stack[|stack| - 1];
      stack := stack[..|stack| - 1];
      return 0, top.line, top.vartoken;
    }

    /** What holds of the state a run shows. */
    lemma ShowsFacts(c: Core)
      requires Shows(c)
      ensures |addrs| == |recs| == |lines| && ValidLines(lines) && ValidCore(|lines|, c) && currentLine == addrs[c.cur]
      ensures ValidEnv(c.env) && c.cur < |addrs| && VarTokenShown(addrs, lines, 0, None)
    {
      hide StackShown, SameOutside, TextOf;
    }

    lemma RunningShows(c: Core)
      requires Running(c)
      ensures Shows(c) && Shaped() && Valid() && Apart() && recs == Encode(addrs, lines)
    {
    }

    /** The statement's bytes belong to the program text. */
    lemma StmtInText(c: Core, p: nat, s: Stmt)
      requires Running(c) && AtStmt(c, p, s)
      ensures p + |StmtTokens(addrs, s)| + 1 <= MEMORY
      ensures forall a :: p <= a < p + |StmtTokens(addrs, s)| + 1 ==> a in Text()
    {
      hide Here, Laid, StackShown, SameOutside, TextOf;
      forall a | p <= a < p + |StmtTokens(addrs, s)| + 1 ensures a in Text() {
        TextAt(start, addrs, recs, endPtr, c.cur, a);
      }
    }

    /** Overwrites a jump, whose operand is at `toks`, with a direct one. */
    method Rewrite(toks: nat, code: Byte, line: Word, ghost c: Core)
      requires Shows(c) && Shaped() && 2 <= toks && toks + 3 < MEMORY
      requires forall a :: toks - 2 <= a < toks + 4 ==> a in Text()
      requires mem[toks - 2] == TOK_KEYWORD && mem[toks] == TOK_NUMERIC && mem[toks + 3] == TOK_TERMINATOR
      modifies mem
      ensures Shows(c) && Shaped()
      ensures TextAfter(Text(), old(mem[..]), mem[..], toks - 2, JumpBytes(code, line) + [TOK_TERMINATOR])
    {
      hide Here, SameOutside, TextOf, TextAfter, JumpBytes, ToWord, StackShown, ValidLines, Placed;
      mem[toks - 1] := code;
      Poke(toks + 1, line);
      JumpLies(mem[..], toks - 2, code, line);
      TextWritten(Text(), c.env.mem, old(mem[..]), mem[..], toks - 2, JumpBytes(code, line) + [TOK_TERMINATOR]);
    }

    /** A jump about to run: its bytes, and what the machine does. */
    lemma JumpAt(c: Core, p: nat, s: Stmt)
      requires Running(c) && AtStmt(c, p, s) && (s.Goto? || s.Gosub? || s.Jumpto? || s.Jumpsub?)
      ensures p + 5 < MEMORY && forall a :: p <= a < p + 6 ==> a in Text()
      ensures mem[p] == TOK_KEYWORD && mem[p + 2] == TOK_NUMERIC && mem[p + 5] == TOK_TERMINATOR
      ensures s.Goto? || s.Gosub? ==> Wrap(Peek(p + 3)) == s.lineno
      ensures s.Jumpto? || s.Jumpsub? ==> Peek(p + 3) == PtrTo(addrs, s.line) && (s.line.Some? ==> s.line.value < |addrs|)
      ensures var next := if s.Goto? || s.Gosub? then Search(Nos(lines), c.cur, s.lineno) else s.line;
              && (s.Goto? ==> Result(c, s) == Done(c.(next := next), Jumpto(next), 0))
              && (s.Gosub? ==> Result(c, s) == ExecCall(c, next, Jumpsub(next)))
              && (s.Jumpto? ==> Result(c, s) == Done(c.(next := next), s, 0))
              && (s.Jumpsub? ==> Result(c, s) == ExecCall(c, next, s))
    {
      hide Here, TextOf, StackShown, SameOutside, ToWord, Search, JumpBytes, Wrap, Pattern;
      StmtInText(c, p, s);
      match s {
        case Goto(lineno) => JumpHere(mem[..], p, KEYWORD_GOTO, Pattern(lineno));
        case Gosub(lineno) => JumpHere(mem[..], p, KEYWORD_GOSUB, Pattern(lineno));
        case Jumpto(line) => JumpHere(mem[..], p, KEYWORD_JUMPTO, PtrTo(addrs, line));
        case Jumpsub(line) => JumpHere(mem[..], p, KEYWORD_JUMPSUB, PtrTo(addrs, line));
      }
    }

    lemma RanRewritten(r: Outcome, before: seq<Byte>, p: nat, code: Byte, line: Option<nat>, error: int)
      requires r.Done? && Shows(r.core) && Shaped() && error == r.error && (line.Some? ==> line.value < |addrs|)
      requires (r.stmt == Jumpto(line) && code == KEYWORD_JUMPTO) || (r.stmt == Jumpsub(line) && code == KEYWORD_JUMPSUB)
      requires TextAfter(Text(), before, mem[..], p, JumpBytes(code, PtrTo(addrs, line)) + [TOK_TERMINATOR])
      ensures Ran(r, before, p, error)
    {
      hide TextAfter, StackShown, SameOutside, TextOf, JumpBytes;
    }

    method DoGoto(toks: nat, ghost c: Core, ghost s: Stmt) returns (error: int)
      requires Running(c) && 2 <= toks && AtStmt(c, toks - 2, s) && s.Goto?
      modifies this`nextLine, mem
      ensures Ran(old(Result(c, s)), old(mem[..]), toks - 2, error)
    {
      hide Here, Running, Shows, Shaped, TextOf, TextAfter, AtStmt, Exec, Ran, StmtTokens, Search, JumpBytes, Peek;
      Due(c, toks - 2, s);
      JumpAt(c, toks - 2, s);
      RunningShows(c);
      ghost var r, before, next := Result(c, s), mem[..], Search(Nos(lines), c.cur, s.lineno);
      if mem[toks] != TOK_NUMERIC { return ERROR_SYNTAX; }
      var lineno := Wrap(Peek(toks + 1));
      var line := TransferControl(lineno, c);
      Rewrite(toks, KEYWORD_JUMPTO, line, c.(next := next));
      RanRewritten(r, before, toks - 2, KEYWORD_JUMPTO, next, 0);
      return 0;
    }

    method DoJumpto(toks: nat, ghost c: Core, ghost s: Stmt) returns (error: int)
      requires Running(c) && 2 <= toks && AtStmt(c, toks - 2, s) && s.Jumpto?
      modifies this`nextLine
      ensures Ran(old(Result(c, s)), old(mem[..]), toks - 2, error)
    {
      hide Here, Running, Shows, Shaped, TextOf, TextAfter, AtStmt, Exec, Ran, Peek, Valid, ValidStmt, StmtTokens, PtrTo, Encode;
      Due(c, toks - 2, s);
      JumpAt(c, toks - 2, s);
      RunningShows(c);
      ghost var r, before := Result(c, s), mem[..];
      if mem[toks] != TOK_NUMERIC { return ERROR_SYNTAX; }
      TransferControlDirect(Peek(toks + 1), c, s.line);
      RanQuietly(r, before, toks - 2, s, 0);
      return 0;
    }

    method DoGosub(toks: nat, ghost c: Core, ghost s: Stmt) returns (error: int)
      requires Running(c) && 2 <= toks && AtStmt(c, toks - 2, s) && s.Gosub? && Result(c, s).Done?
      modifies this`nextLine, this`stack, mem
      ensures Ran(old(Result(c, s)), old(mem[..]), toks - 2, error)
    {
      hide Here, Running, Shows, Shaped, TextOf, TextAfter, AtStmt, Exec, Ran, StmtTokens, Search, JumpBytes, Peek, Valid;
      Due(c, toks - 2, s);
      JumpAt(c, toks - 2, s);
      RunningShows(c);
      ShowsFacts(c);
      ghost var r, before, next := Result(c, s), mem[..], Search(Nos(lines), c.cur, s.lineno);
      if mem[toks] != TOK_NUMERIC { return ERROR_SYNTAX; }
      var lineno := Wrap(Peek(toks + 1));
      ghost var c1 := Push(c, Frame(c.cur, None));
      PushReturn(currentLine, 0, c, Frame(c.cur, None));
      StillRunning(c1, before);
      var line := TransferControl(lineno, c1);
      Rewrite(toks, KEYWORD_JUMPSUB, line, c1.(next := next));
      RanRewritten(r, before, toks - 2, KEYWORD_JUMPSUB, next, 0);
      return 0;
    }

    /** Memory untouched, a run goes on. */
    lemma StillRunning(c: Core, before: seq<Byte>)
      requires Shows(c) && Shaped() && mem[..] == before && Laid(before, addrs, recs) && recs == Encode(addrs, lines)
      ensures Running(c)
    {
    }

    method DoJumpsub(toks: nat, ghost c: Core, ghost s: Stmt) returns (error: int)
      requires Running(c) && 2 <= toks && AtStmt(c, toks - 2, s) && s.Jumpsub? && Result(c, s).Done?
      modifies this`nextLine, this`stack
      ensures Ran(old(Result(c, s)), old(mem[..]), toks - 2, error)
    {
      hide Here, Running, Shows, Shaped, TextOf, TextAfter, AtStmt, Exec, Ran, Peek, Valid, ValidStmt, StmtTokens, PtrTo, Encode;
      Due(c, toks - 2, s);
      JumpAt(c, toks - 2, s);
      RunningShows(c);
      ShowsFacts(c);
      ghost var r, before := Result(c, s), mem[..];
      if mem[toks] != TOK_NUMERIC { return ERROR_SYNTAX; }
      PushReturn(currentLine, 0, c, Frame(c.cur, None));
      TransferControlDirect(Peek(toks + 1), Push(c, Frame(c.cur, None)), s.line);
      RanQuietly(r, before, toks - 2, s, 0);
      return 0;
    }

    method DoReturn(ghost p: nat, ghost c: Core, ghost s: Stmt) returns (error: int)
      requires Running(c) && AtStmt(c, p, s) && s.Return?
      modifies this`nextLine, this`stack
      ensures Ran(old(Result(c, s)), old(mem[..]), p, error)
    {
      hide Here, Running, Shows, Shaped, TextOf, TextAfter, AtStmt, Ran, NextLine, Valid;
      Due(c, p, s);
      RunningShows(c);
      ghost var r, before := Result(c, s), mem[..];
      assert r == ExecReturn(Nos(lines), c, s);
      hide Exec;
      var e, line, _ := PopReturn(c);
      if e != 0 {
        RanQuietly(r, before, p, s, e);
        return e;
      }
      StillRunning(Pop(c), before);
      RunningShows(Pop(c));
      LinkAt(Top(c).line);
      TransferControlDirect(NextLine(line), Pop(c), Following(Nos(lines), Top(c).line));
      RanQuietly(r, before, p, s, 0);
      return 0;
    }

    method DoEnd(ghost p: nat, ghost c: Core, ghost s: Stmt) returns (error: int)
      requires Running(c) && AtStmt(c, p, s) && s.Finish? && c.running
      modifies this`running
      ensures Ran(old(Result(c, s)), old(mem[..]), p, error)
    {
      hide Here, Placed, Laid, StackShown, SameOutside, ValidLines, Encode, TextOf, TextAfter;
      TextUntouched(Text(), mem[..], mem[..], p, StmtTokens(addrs, s) + [TOK_TERMINATOR]);
      if !running { return ERROR_NOT_RUNNING; }
      running := false;
      return 0;
    }

    // ----- Variables -----

    /** Compares two strings that end in a zero byte; 0 if they are equal. */
    method StrCmp(p: nat, q: nat, ghost a: seq<Byte>, ghost b: seq<Byte>) returns (r: int)
      requires Here(mem[..], p, a + [0]) && Here(mem[..], q, b + [0]) && 0 !in a && 0 !in b
      ensures r == 0 <==> a == b
    {
      StringHere(mem[..], p, a);
      StringHere(mem[..], q, b);
      hide Here;
      var i := 0;
      while mem[p + i] == mem[q + i] && mem[p + i] != 0
        invariant 0 <= i <= |a| && i <= |b| && a[..i] == b[..i]
        decreases |a| - i
      {
        i := i + 1;
      }
      if mem[p + i] == mem[q + i] { return 0; }
      return 1;
    }

    /** `p` points to the token of a variable, or is null. */
    ghost predicate PointsTo(p: Word, v: Option<Var>)
      reads mem
    {
      match v
      case None => p == 0
      case Some(x) => p != 0 && ValidVar(x) && Here(mem[..], p, VarTokens(x))
    }

    /** Compares two variable tokens; 0 if they are equal. A null pointer equals nothing. */
    method VarCmp(left: Word, right: Word, ghost v: Option<Var>, ghost w: Option<Var>) returns (r: int)
      requires PointsTo(left, v) && PointsTo(right, w)
      ensures r == 0 <==> v.Some? && v == w
    {
      hide Here, VarTokens, Letters;
      if left == 0 || right == 0 { return 1; }
      VarAlone(mem[..], left, v.value);
      VarAlone(mem[..], right, w.value);
      if mem[left] != mem[right] { return 1; }
      if mem[left] == TOK_REGISTER {
        if mem[left + 1] == mem[right + 1] { return 0; }
        return 1;
      } else if mem[left] == TOK_VARIABLE {
        ghost var m, n := v.value.name, w.value.name;
        NameString(mem[..], left, m);
        NameString(mem[..], right, n);
        r := StrCmp(left + 1, right + 1, [|m| + 1] + m, [|n| + 1] + n);
        assert ([|m| + 1] + m)[1..] == m && ([|n| + 1] + n)[1..] == n;
        return;
      }
      return 1;
    }

    function RealEnv(): Env
      reads this, mem, registers
    {
      Env(registers[..], context, mem[..])
    }

    /** Stores a value where a pointer leads. */
    method SetAt(place: Place, x: Int16, ghost c: Core)
      requires Shows(c) && Shaped() && ValidPlace(c.env, place) && ClearPlace(Text(), place)
      modifies this`context, registers, mem
      ensures Shows(c.(env := Store(c.env, place, x))) && Shaped()
      ensures forall a :: 0 <= a < MEMORY && a in Text() ==> mem[a] == old(mem[a])
      ensures !place.InMemory? ==> mem[..] == old(mem[..])
    {
      hide Placed, StackShown, ValidLines, TextOf, Pattern;
      match place {
        case InRegister(letter) =>
          registers[letter] := registers[letter].(value := x);
        case InContext(i) =>
          context := context[i := (context[i].0, x)];
        case InMemory(a) =>
          mem[a] := Pattern(x) % 0x100;
          mem[(a + 1) % MEMORY] := Pattern(x) / 0x100;
      }
    }

    method GetNumericRef(p: nat, ghost v: Var, ghost c: Core) returns (found: Option<Place>)
      requires Shows(c) && ValidVar(v) && Here(mem[..], p, VarTokens(v))
      ensures found == VarPlace(c.env, v)
    {
      found := Evaluator.GetNumericRef(mem[..], p, RealEnv(), v);
    }

    /** Sets a plain variable, or defines it. */
    method SetNumeric(p: nat, x: Int16, ghost v: Var, ghost c: Core) returns (error: int)
      requires Shows(c) && Shaped() && ValidVar(v) && Here(mem[..], p, VarTokens(v))
      modifies this`context, registers, mem
      ensures Assign(c.env, v, x).Ok? ==> error == 0 && Shows(c.(env := Assign(c.env, v, x).value))
      ensures Assign(c.env, v, x).Err? ==> error == Assign(c.env, v, x).error && Shows(c)
      ensures Shaped() && mem[..] == old(mem[..])
    {
      hide Here, Placed, StackShown, SameOutside, ValidLines, TextOf, Store, VarTokens;
      var found := GetNumericRef(p, v, c);
      if found.Some? {
        SetAt(found.value, x, c);
        return 0;
      }
      if |context| == MAX_VARS { return ERROR_TOO_MANY_VARS; }
      VarAlone(mem[..], p, v);
      var name := mem[p + 2..p + 1 + mem[p + 1]];
      if |name| > VARNAME_SIZE { return ERROR_VARNAME; }
      context := context + [(name, x)];
      return 0;
    }

    method GetNumeric(p: nat, ghost v: Var, ghost c: Core) returns (error: int, x: Int16)
      requires Shows(c) && ValidVar(v) && Here(mem[..], p, VarTokens(v))
      ensures Reports(ScalarValue(c.env, v), error, x)
    {
      hide Here, VarTokens, StackShown, ValidLines;
      var found := GetNumericRef(p, v, c);
      if found.None? { return ERROR_UNDEFINED_VAR, 0; }
      return 0, Load(RealEnv(), found.value);
    }

    lemma NextAt(c: Core, p: nat, s: Stmt)
      requires Running(c) && AtStmt(c, p, s) && s.Next?
      ensures Here(mem[..], p + 2, VarTokens(s.v)) && ValidVar(s.v) && 0 < p && p + 2 < MEMORY
      ensures mem[p + 2] == TOK_VARIABLE || mem[p + 2] == TOK_REGISTER
      ensures Result(c, s) == ExecNext(c, s.v, s)
    {
      hide Here, VarTokens, StackShown, SameOutside, TextOf, TextAfter;
      Due(c, p, s);
      HereSplit(mem[..], p, [TOK_KEYWORD, KEYWORD_NEXT], VarTokens(s.v));
      VarAlone(mem[..], p + 2, s.v);
    }

    method DoNext(toks: nat, ghost c: Core, ghost s: Stmt) returns (error: int)
      requires Running(c) && 2 <= toks && AtStmt(c, toks - 2, s) && s.Next?
      modifies this`nextLine, this`stack
      ensures Ran(old(Result(c, s)), old(mem[..]), toks - 2, error)
    {
      hide Here, Running, Shows, Shaped, TextOf, TextAfter, AtStmt, Exec, Ran, VarTokens, VarTokenShown, Valid;
      Due(c, toks - 2, s);
      NextAt(c, toks - 2, s);
      RunningShows(c);
      ghost var r, before := Result(c, s), mem[..];
      if mem[toks] != TOK_VARIABLE && mem[toks] != TOK_REGISTER { return ERROR_SYNTAX; }
      var e, dest, vartok := PopReturn(c);
      if e == ERROR_RETSTACK_EMPTY {
        RanQuietly(r, before, toks - 2, s, ERROR_SYNTAX);
        return ERROR_SYNTAX;
      }
      if e != 0 { return e; }
      StillRunning(Pop(c), before);
      RunningShows(Pop(c));
      ShowsFacts(Pop(c));
      VarTokenPoints(vartok, Top(c).loop);
      var cmp := VarCmp(toks, vartok, Some(s.v), Top(c).loop);
      if cmp != 0 {
        RanQuietly(r, before, toks - 2, s, ERROR_SYNTAX);
        return ERROR_SYNTAX;
      }
      ghost var frame := Frame(c.cur, Some(s.v));
      PushReturn(currentLine, vartok, Pop(c), frame);
      TransferControlDirect(dest, Push(Pop(c), frame), Some(Top(c).line));
      RanQuietly(r, before, toks - 2, s, 0);
      return 0;
    }

    /** What a frame's variable pointer leads to. */
    lemma VarTokenPoints(p: Word, loop: Option<Var>)
      requires |addrs| == |lines| && ValidLines(lines) && Valid() && recs == Encode(addrs, lines)
      requires VarTokenShown(addrs, lines, p, loop)
      ensures PointsTo(p, loop)
    {
      hide Here, Laid, Encode, ForVarAt;
      if loop.Some? {
        VarTokenHere(mem[..], addrs, lines, p, loop.value);
      }
    }

    /** The variable of the FOR being run is what its frame will point to. */
    lemma OwnVarShown(c: Core, toks: nat, s: Stmt)
      requires Running(c) && 2 <= toks && AtStmt(c, toks - 2, s) && s.For?
      ensures toks < MEMORY && VarTokenShown(addrs, lines, toks, Some(s.v))
    {
      hide Here, Laid, StackShown, SameOutside, TextOf, StmtTokens;
      ForBytesAlike(addrs, s);
      assert ForVarAt(addrs, lines, c.cur, s.v, toks);
    }

    /** Sets the loop's variable, and gives its value and the line of the frame on top of the return
        stack, which stays there unless it is the loop's own. */
    method ForValue(v: Word, first: Int16, ghost c: Core, ghost x: Var) returns (line: Word, value: Int16)
      requires Running(c) && PointsTo(v, Some(x)) && ForAssign(c, x, first).Ok?
      modifies this`context, this`stack, registers, mem
      ensures var c1 := ForAssign(c, x, first).value; Shows(c1) && Shaped() && ScalarValue(c1.env, x) == Ok(value)
      ensures mem[..] == old(mem[..])
      ensures c.stack != [] ==> Top(c).line < |addrs| && line == addrs[Top(c).line]
    {
      hide Here, Running, Shows, Shaped, TextOf, VarTokens, VarTokenShown, Assign, ScalarValue, Valid;
      RunningShows(c);
      ShowsFacts(c);
      ghost var before := mem[..];
      var e, vartok;
      e, line, vartok := PopReturn(c);
      var inLoop := false;
      ghost var c1 := c;
      if e == 0 {
        c1 := Pop(c);
        StillRunning(c1, before);
        VarTokenPoints(vartok, Top(c).loop);
        var cmp := VarCmp(vartok, v, Top(c).loop, Some(x));
        inLoop := cmp == 0;
      }
      if inLoop {
        var _, current: int := GetNumeric(v, x, c1);
        Loops.AssignReads(c.env, x, Wrap(current + 1));
        var _ := SetNumeric(v, Wrap(current + 1), x, c1);
      } else {
        Loops.AssignReads(c.env, x, first);
        var _ := SetNumeric(v, first, x, c1);
        if e == 0 {
          c1 := c1.(env := Assign(c.env, x, first).value);
          PushReturn(line, vartok, c1, Top(c));
          assert Push(c1, Top(c)).stack == c.stack;
        }
      }
      var _, now := GetNumeric(v, x, ForAssign(c, x, first).value);
      return line, now;
    }

    /** The part of FOR after its operands are read. */
    method ForEnter(v: Word, first: Int16, limit: Int16, ghost c: Core, ghost s: Stmt) returns (error: int)
      requires Running(c) && 2 <= v && AtStmt(c, v - 2, s) && s.For? && ValidVar(s.v) && PointsTo(v, Some(s.v))
      requires s.start == first && s.limit == limit && ExecFor(Nos(lines), c, s.v, first, limit, s).Done?
      modifies this`context, this`stack, this`nextLine, registers, mem
      ensures var r := old(ExecFor(Nos(lines), c, s.v, first, limit, s)); error == r.error == 0 && Shows(r.core) && Shaped()
      ensures mem[..] == old(mem[..])
    {
      hide Here, Running, Shows, Shaped, TextOf, VarTokens, VarTokenShown, ForAssign, ScalarValue, ExecFor, PointsTo, AtStmt, Valid,
           NextLine;
      RunningShows(c);
      ShowsFacts(c);
      OwnVarShown(c, v, s);
      ForCases(Nos(lines), c, s.v, first, limit, s);
      ghost var c1, before := ForAssign(c, s.v, first).value, mem[..];
      var line, value := ForValue(v, first, c, s.v);
      ShowsFacts(c1);
      if value >= limit {
        StillRunning(c1, before);
        RunningShows(c1);
        LinkAt(Top(c).line);
        TransferControlDirect(NextLine(line), c1, Following(Nos(lines), Top(c).line));
      } else {
        PushReturn(currentLine, v, c1, Frame(c1.cur, Some(s.v)));
      }
      return 0;
    }

    /** Reads the operands of a FOR. */
    method ForOperands(toks: nat, ghost v: Var, ghost start0: Int16, ghost limit0: Int16)
      returns (error: int, first: int, limit: int)
      requires ValidVar(v) && 2 <= toks && Here(mem[..], toks - 2, StmtTokens([], For(v, start0, limit0)))
      ensures error == 0 && first == start0 && limit == limit0 && Here(mem[..], toks, VarTokens(v))
    {
      hide Here, VarTokens, NumberBytes, Wrap, ToWord, StmtTokens;
      ghost var m := mem[..];
      ForHere(m, toks - 2, v, start0, limit0);
      VarAlone(m, toks, v);
      var next := toks;
      if mem[next] == TOK_VARIABLE {
        next := next + 2 + mem[next + 1];
      } else if mem[next] == TOK_REGISTER {
        next := next + REGISTER_SIZE;
      } else {
        return ERROR_SYNTAX, 0, 0;
      }
      PairHere(m, next, TOK_OPERATOR, OP_EQUAL);
      NumberHere(m, next + 2, start0);
      PairHere(m, next + 5, TOK_KEYWORD, KEYWORD_TO);
      NumberHere(m, next + 7, limit0);
      if mem[next] != TOK_OPERATOR { return ERROR_SYNTAX, 0, 0; }
      if mem[next + 1] != OP_EQUAL { return ERROR_SYNTAX, 0, 0; }
      next := next + OP_SIZE;
      if mem[next] != TOK_NUMERIC { return ERROR_SYNTAX, 0, 0; }
      first := Wrap(ToWord(mem[next + 1], mem[next + 2]));
      next := next + NUMERIC_SIZE;
      if mem[next] != TOK_KEYWORD { return ERROR_SYNTAX, 0, 0; }
      if mem[next + 1] != KEYWORD_TO { return ERROR_SYNTAX, 0, 0; }
      next := next + KW_SIZE;
      if mem[next] != TOK_NUMERIC { return ERROR_SYNTAX, 0, 0; }
      limit := Wrap(ToWord(mem[next + 1], mem[next + 2]));
      return 0, first, limit;
    }

    lemma ForAt(c: Core, p: nat, s: Stmt)
      requires Running(c) && AtStmt(c, p, s) && s.For?
      ensures Here(mem[..], p, StmtTokens([], s)) && ValidVar(s.v) && 0 < p
      ensures Result(c, s) == ExecFor(Nos(lines), c, s.v, s.start, s.limit, s)
    {
      hide Here, StmtTokens, ExecFor, StackShown, SameOutside, TextOf;
      HereSplit(mem[..], p, StmtTokens(addrs, s), [TOK_TERMINATOR]);
      ForBytesAlike(addrs, s);
    }

    method DoFor(toks: nat, ghost c: Core, ghost s: Stmt) returns (error: int)
      requires Running(c) && 2 <= toks && AtStmt(c, toks - 2, s) && s.For? && Result(c, s).Done?
      modifies this`context, this`stack, this`nextLine, registers, mem
      ensures Ran(old(Result(c, s)), old(mem[..]), toks - 2, error)
    {
      hide Here, VarTokens, StmtTokens, TextAfter, Exec, ExecFor, Shows, Running, Shaped, VarTokenShown, TextOf, Ran, AtStmt,
           ValidCore, ValidStmt;
      Due(c, toks - 2, s);
      ForAt(c, toks - 2, s);
      OwnVarShown(c, toks, s);
      ghost var r, before := Result(c, s), mem[..];
      var e, first, limit := ForOperands(toks, s.v, s.start, s.limit);
      if e != 0 { return e; }
      error := ForEnter(toks, first, limit, c, s);
      RanQuietly(r, before, toks - 2, s, error);
    }

    // ----- Evaluation and assignment -----

    /** An expression in the program, in the variables of the run. */
    method Evaluate(p: nat, ghost c: Core, ghost e: Expr) returns (error: int, result: Int16, end: nat)
      requires Shows(c) && Apart() && Holds(mem[..], p, e) && ClearExpr(Text(), c.env, e)
      modifies eval, eval.numstack
      ensures Reports(Meaning(c.env, e), error, result)
      ensures error == 0 ==> end == p + |ExprTokens(e)|
    {
      hide Holds, Meaning, ClearExpr, StackShown, ValidLines, TextOf, ExprTokens;
      assert RealEnv() == c.env.(mem := mem[..]);
      HoldsValid(mem[..], p, e);
      MeaningOutside(Text(), c.env, mem[..], e);
      error, result, end := eval.EvalNumeric(mem[..], p, RealEnv(), e);
    }

    method GetPtr(p: nat, ghost c: Core, ghost x: Operand) returns (error: int, next: nat, place: Place)
      requires Shows(c) && Apart() && ValidOperand(x) && !x.Lit? && Here(mem[..], p, OperandTokens(x))
      requires NoParen(mem[..], p + |OperandTokens(x)|) && ClearOperand(Text(), c.env, x)
      modifies eval, eval.numstack
      ensures Reports(PlaceOf(c.env, x), error, place)
      ensures error == 0 ==> next == p + |OperandTokens(x)|
    {
      hide Here, NoParen, PlaceOf, ClearOperand, StackShown, ValidLines, TextOf, OperandTokens, Load;
      assert RealEnv() == c.env.(mem := mem[..]);
      PlaceOutside(Text(), c.env, mem[..], x);
      error, next, place := eval.GetPtr(mem[..], p, RealEnv(), x);
    }

    /** The rest of an assignment, once its target is located. */
    method AssignValue(next0: nat, place: Place, ghost c: Core, ghost e: Expr, ghost s: Stmt) returns (error: int)
      requires Shows(c) && Shaped() && ValidExpr(e) && ValidPlace(c.env, place) && ClearPlace(Text(), place)
      requires Here(mem[..], next0, [TOK_OPERATOR, OP_EQUAL]) && Holds(mem[..], next0 + OP_SIZE, e)
      requires AssignTo(Text(), c, Ok(place), e, s).Done?
      modifies this`context, registers, mem, eval, eval.numstack
      ensures var r := old(AssignTo(Text(), c, Ok(place), e, s)); Shows(r.core) && error == r.error
      ensures Shaped() && forall a :: 0 <= a < MEMORY && a in Text() ==> mem[a] == old(mem[a])
    {
      hide Here, Holds, Meaning, ClearExpr, StackShown, SameOutside, ValidLines, TextOf, ExprTokens, Placed, Store, ClearPlace, ValidExpr;
      PairHere(mem[..], next0, TOK_OPERATOR, OP_EQUAL);
      if !(mem[next0] == TOK_OPERATOR && mem[next0 + 1] == OP_EQUAL) { return ERROR_SYNTAX; }
      var next := next0 + OP_SIZE;
      var err, val, _ := Evaluate(next, c, e);
      if err != 0 { return err; }
      SetAt(place, val, c);
      return 0;
    }

    lemma LetAt(c: Core, p: nat, s: Stmt)
      requires Running(c) && AtStmt(c, p, s) && s.Let?
      ensures var x, q := s.target, p + |OperandTokens(s.target)|;
              && !x.Lit? && ValidOperand(x) && ValidExpr(s.value) && ValidEnv(c.env)
              && Here(mem[..], p, OperandTokens(x)) && NoParen(mem[..], q) && Here(mem[..], p, VarTokens(x.v))
              && Here(mem[..], q, [TOK_OPERATOR, OP_EQUAL]) && Holds(mem[..], q + OP_SIZE, s.value)
      ensures Result(c, s) == ExecLet(Text(), c, s.target, s.value, s)
      ensures Here(mem[..], p, StmtTokens(addrs, s) + [TOK_TERMINATOR]) && Shaped() && ValidStmt(|addrs|, s)
    {
      hide Here, OperandTokens, ExprTokens, ExecLet, StackShown, SameOutside, TextOf, ValidOperand, ValidExpr, VarTokens, NoParen,
           Readable, Placed, Laid, ValidLines;
      var m, bs, op, value := mem[..], OperandTokens(s.target), [TOK_OPERATOR, OP_EQUAL], ExprTokens(s.value);
      HereSplit(m, p, StmtTokens(addrs, s), [TOK_TERMINATOR]);
      HereSplit(m, p, bs, op + value);
      HereSplit(m, p + |bs|, op, value);
      EndedExpr(m, p + |bs| + 2, s.value, [TOK_TERMINATOR]);
      EqualNoParen(m, p + |bs|);
      OperandVar(m, p, s.target);
    }

    /** LET: locates the target, defining it first if it is unknown, then evaluates and stores. */
    method Assignment(p: nat, ghost c: Core, ghost s: Stmt) returns (error: int)
      requires Running(c) && AtStmt(c, p, s) && s.Let? && Result(c, s).Done?
      modifies this`context, registers, mem, eval, eval.numstack
      ensures Ran(old(Result(c, s)), old(mem[..]), p, error)
    {
      hide Here, NoParen, Holds, PlaceOf, ClearOperand, OperandTokens, VarTokens, StmtTokens, TextAfter, Exec, ExecLet, AssignTo,
           Valid, Ran, AtStmt, ValidStmt, ClearPlace, Assign, StackShown, SameOutside, TextOf, Placed, Laid, ValidLines, ExprTokens;
      Due(c, p, s);
      LetAt(c, p, s);
      StmtInText(c, p, s);
      ghost var x, r, before := s.target, Result(c, s), mem[..];
      LetCases(Text(), c, x, s.value, s);
      var next, place;
      error, next, place := GetPtr(p, c, x);
      ghost var c1 := c;
      if error == ERROR_UNDEFINED_VAR {
        error := SetNumeric(p, 0, x.v, c);
        if error != 0 {
          RanClear(r, before, p, s, error);
          return;
        }
        c1 := c.(env := Assign(c.env, x.v, 0).value);
        error, next, place := GetPtr(p, c1, x);
      }
      if error != 0 {
        AssignNowhere(Text(), c1, PlaceOf(c1.env, x), s.value, s);
        RanClear(r, before, p, s, error);
        return;
      }
      PlaceClear(Text(), c1.env, x);
      error := AssignValue(next, place, c1, s.value, s);
      RanClear(r, before, p, s, error);
    }

    // ----- Arrays -----

    /** Allocates zeroed memory at the end, with a mark and a size. */
    method Alloc(size: Byte) returns (block: nat)
      requires mem.Length == MEMORY && endPtr + 2 + size <= MEMORY
      modifies this`endPtr, mem
      ensures block == old(endPtr) && endPtr == old(endPtr) + 2 + size
      ensures mem[..] == Overwrite(old(mem[..]), old(endPtr), ArrayBytes(size))
    {
      block := endPtr;
      mem[endPtr] := TOK_ALLOC;
      endPtr := endPtr + 1;
      mem[endPtr] := size;
      endPtr := endPtr + 1;
      for i := 0 to size
        invariant endPtr == block + 2 + i
        invariant mem[block] == TOK_ALLOC && mem[block + 1] == size
        invariant forall j :: block + 2 <= j < endPtr ==> mem[j] == 0
        invariant forall j :: 0 <= j < MEMORY && !(block <= j < endPtr) ==> mem[j] == old(mem[j])
      {
        mem[endPtr] := 0;
        endPtr := endPtr + 1;
      }
    }

    /** Allocates within a run: the program text is out of the way. */
    method AllocData(size: Byte, ghost c: Core) returns (a: Word)
      requires Shows(c) && Shaped() && c.end + 2 + size <= MEMORY
      modifies this`endPtr, mem
      ensures a == c.end && Shows(Allocated(c, size)) && Shaped()
      ensures forall k :: 0 <= k < MEMORY && k in Text() ==> mem[k] == old(mem[k])
    {
      hide StackShown, ValidLines, TextOf, Overwrite, ArrayBytes, SameOutside;
      TextBelowEnd(start, addrs, recs, endPtr);
      a := Alloc(size);
      PlacedGrows(start, addrs, recs, a, endPtr);
      AllocOutside(Text(), c.env.mem, old(mem[..]), a, ArrayBytes(size));
    }

    /** Makes a variable the name of a new array. */
    method CreateArray(p: nat, size: Byte, ghost v: Var, ghost c: Core) returns (error: int)
      requires Shows(c) && Shaped() && ValidVar(v) && Here(mem[..], p, VarTokens(v))
      requires c.end + 2 + size <= MEMORY && (v.Named? ==> |c.env.context| < MAX_VARS)
      modifies this`endPtr, this`context, registers, mem
      ensures error == 0 && Shows(WithArray(c, v, size)) && Shaped()
      ensures forall a :: 0 <= a < MEMORY && a in Text() ==> mem[a] == old(mem[a])
    {
      hide Here, StackShown, ValidLines, TextOf, VarTokens, Overwrite, ArrayBytes, Wrap, SameOutside, Placed;
      VarAlone(mem[..], p, v);
      var kind, letter := mem[p], mem[p + 1];
      var name := if kind == TOK_REGISTER then [] else mem[p + 2..p + 1 + mem[p + 1]];
      var a := AllocData(size, c);
      if kind == TOK_REGISTER {
        registers[letter] := Cell(true, Wrap(a));
        return 0;
      }
      context := context + [(name, Wrap(a))];
      return 0;
    }

    method DimOperand(toks: nat, ghost v: Var, ghost size0: Int16) returns (error: int, size: int)
      requires ValidVar(v) && 2 <= toks && Here(mem[..], toks - 2, StmtTokens([], Dim(v, size0)))
      ensures error == 0 && size == size0 && Here(mem[..], toks, VarTokens(v))
    {
      hide Here, VarTokens, NumberBytes, Wrap, ToWord, StmtTokens;
      DimHere(mem[..], toks - 2, v, size0);
      VarAlone(mem[..], toks, v);
      var next := toks;
      if mem[next] == TOK_VARIABLE {
        next := next + 2 + mem[next + 1];
      } else if mem[next] == TOK_REGISTER {
        next := next + REGISTER_SIZE;
      } else {
        return ERROR_SYNTAX, 0;
      }
      next := next + OP_SIZE;
      NumberHere(mem[..], next, size0);
      return 0, Wrap(ToWord(mem[next + 1], mem[next + 2]));
    }

    lemma DimAt(c: Core, p: nat, s: Stmt)
      requires Running(c) && AtStmt(c, p, s) && s.Dim?
      ensures Here(mem[..], p, StmtTokens([], s)) && ValidVar(s.v) && ValidEnv(c.env)
      ensures Result(c, s) == ExecDim(c, s.v, s.size, s)
      ensures Here(mem[..], p, StmtTokens(addrs, s) + [TOK_TERMINATOR])
    {
      hide Here, StmtTokens, ExecDim, StackShown, SameOutside, TextOf;
      HereSplit(mem[..], p, StmtTokens(addrs, s), [TOK_TERMINATOR]);
      DimBytesAlike(addrs, s);
    }

    method DoDim(toks: nat, ghost c: Core, ghost s: Stmt) returns (error: int)
      requires Running(c) && 2 <= toks && AtStmt(c, toks - 2, s) && s.Dim? && Result(c, s).Done?
      modifies this`endPtr, this`context, registers, mem
      ensures Ran(old(Result(c, s)), old(mem[..]), toks - 2, error)
    {
      hide Here, VarTokens, StmtTokens, TextAfter, Exec, ExecDim, Valid, TextOf, Ran, AtStmt, ValidStmt, StackShown, SameOutside,
           Placed, Laid, ValidLines;
      Due(c, toks - 2, s);
      DimAt(c, toks - 2, s);
      StmtInText(c, toks - 2, s);
      ghost var r, before := Result(c, s), mem[..];
      var e, size := DimOperand(toks, s.v, s.size);
      if e != 0 { return e; }
      DimCases(c, s.v, s.size, s);
      if size % MEMORY > 255 / 2 {
        RanClear(r, before, toks - 2, s, ERROR_RANGE);
        return ERROR_RANGE;
      }
      error := CreateArray(toks, (size % MEMORY) * 2, s.v, c);
      RanClear(r, before, toks - 2, s, error);
    }

    // ----- Printing -----

    /** Writes to the terminal. */
    method Emit(x: Printed, ghost c: Core)
      requires Shows(c) && Shaped()
      modifies this`out
      ensures Shows(c.(out := c.out + [x])) && Shaped()
    {
      hide StackShown, SameOutside, ValidLines, TextOf, Placed;
      out := out + [x];
    }

    method PrintString(p: nat, ghost bytes: seq<Byte>, ghost c: Core)
      requires Here(mem[..], p, bytes + [0]) && 0 !in bytes && Shows(c) && Shaped()
      modifies this`out
      ensures Shows(c.(out := c.out + [Word(bytes)])) && Shaped()
    {
      hide Here, Shows, Shaped;
      StringHere(mem[..], p, bytes);
      var end := p;
      while mem[end] != 0
        invariant p <= end <= p + |bytes|
        decreases p + |bytes| - end
      {
        end := end + 1;
      }
      assert mem[p..end] == bytes;
      Emit(Word(mem[p..end]), c);
    }

    lemma PrintAt(c: Core, p: nat, s: Stmt)
      requires Running(c) && AtStmt(c, p, s) && s.Print?
      ensures s.items != [] && ValidItems(s.items) && ValidEnv(c.env)
      ensures Result(c, s) == ExecPrint(Text(), c, s.items, s)
      ensures Here(mem[..], p + 2, ItemsBytes(s.items) + [TOK_TERMINATOR])
    {
      hide Here, ItemsBytes, ExecPrint, StackShown, SameOutside, TextOf, ValidItem;
      var head, rest := [TOK_KEYWORD, KEYWORD_PRINT], ItemsBytes(s.items);
      assert (head + rest) + [TOK_TERMINATOR] == head + (rest + [TOK_TERMINATOR]);
      HereSplit(mem[..], p, head, rest + [TOK_TERMINATOR]);
    }

    /** Prints one item; gives where the tokens after it are. */
    method PrintItem(toks: nat, ghost c: Core, ghost items: seq<PrintItem>, ghost s: Stmt)
      returns (error: int, end: nat, ghost c': Core)
      requires Shows(c) && Shaped() && items != [] && ValidItems(items)
      requires Here(mem[..], toks, ItemsBytes(items) + [TOK_TERMINATOR]) && ExecPrint(Text(), c, items, s).Done?
      modifies this`out, eval, eval.numstack
      ensures Shows(c') && Shaped()
      ensures error != 0 ==> old(ExecPrint(Text(), c, items, s)) == Done(c', s, error)
      ensures error == 0 ==>
                && old(ExecPrint(Text(), c, items, s)) == ExecPrint(Text(), c', items[1..], s)
                && AfterItem(mem[..], end, items)
    {
      hide Here, Holds, Meaning, ClearExpr, ExecPrint, ItemsBytes, StackShown, SameOutside, ValidLines, TextOf, ExprTokens, Placed,
           ValidExpr, AfterItem, Shaped;
      ItemAt(mem[..], toks, items);
      PrintStep(Text(), c, items, s);
      ShapedApart();
      if mem[toks] == TOK_STRING {
        PrintString(toks + 2, items[0].bytes, c);
        return 0, toks + 2 + mem[toks + 1], c.(out := c.out + [Word(items[0].bytes)]);
      } else {
        var e, n, exprEnd := Evaluate(toks, c, items[0].e);
        if e != 0 { return e, 0, c; }
        Emit(Value(n), c);
        return 0, exprEnd, c.(out := c.out + [Value(n)]);
      }
    }

    lemma ShapedApart()
      requires Shaped()
      ensures Apart()
    {
    }

    method DoPrint(toks0: nat, ghost c: Core, ghost s: Stmt) returns (error: int)
      requires Running(c) && 2 <= toks0 && AtStmt(c, toks0 - 2, s) && s.Print? && Result(c, s).Done?
      modifies this`out, eval, eval.numstack
      ensures Ran(old(Result(c, s)), old(mem[..]), toks0 - 2, error)
    {
      hide Here, StmtTokens, TextAfter, Exec, ExecPrint, Running, Shows, Shaped, TextOf, Ran, AtStmt, ValidStmt, ItemsBytes, AfterItem;
      Due(c, toks0 - 2, s);
      PrintAt(c, toks0 - 2, s);
      RunningShows(c);
      ghost var r, before, p := Result(c, s), mem[..], toks0 - 2;
      ghost var c1, rest := c, s.items;
      var toks: nat := toks0;
      while true
        invariant Shows(c1) && Shaped() && ValidEnv(c1.env) && rest != [] && ValidItems(rest)
        invariant Here(mem[..], toks, ItemsBytes(rest) + [TOK_TERMINATOR]) && ExecPrint(Text(), c1, rest, s) == r
        decreases |rest|
      {
        var e, end;
        e, end, c1 := PrintItem(toks, c1, rest, s);
        ShowsFacts(c1);
        if e != 0 {
          RanQuietly(r, before, p, s, e);
          return e;
        }
        toks := end;
        AfterItemCases(mem[..], toks, rest);
        rest := rest[1..];
        if mem[toks] == TOK_TERMINATOR { break; }
        if mem[toks] != TOK_SEPARATOR { return ERROR_SYNTAX; }
        toks := toks + SEP_SIZE;
      }
      PrintEnd(Text(), c1, s);
      Emit(NewLine, c1);
      RanQuietly(r, before, p, s, 0);
      return 0;
    }

    // ----- IF, and statements in general -----

    /** The statement of an IF decides what the IF does: in its first run, or in the second if that fails. */
    ghost predicate BodyDecides(c: Core, s: Stmt)
      requires |addrs| == |recs| == |lines| && ValidCore(|lines|, c) && ValidStmt(|lines|, s) && s.If?
      reads this
    {
      && Result(c, s.body).Done?
      && var first := Result(c, s.body);
         && (first.error == 0 ==> Result(c, s) == AroundBody(s, first))
         && (first.error != 0 ==>
               && ValidCore(|lines|, first.core) && Same(c, first.core) && first.stmt == s.body
               && Result(first.core, s.body).Done? && Result(c, s) == AroundBody(s, Result(first.core, s.body)))
    }

    /** An IF about to run: its parts, and what the machine does. */
    lemma IfAt(c: Core, p: nat, s: Stmt)
      requires Running(c) && AtStmt(c, p, s) && s.If? && Result(c, s).Done?
      ensures ValidEnv(c.env) && ValidExpr(s.left) && ValidExpr(s.right)
      ensures ClearExpr(Text(), c.env, s.left) && ClearExpr(Text(), c.env, s.right)
      ensures var a, b, m := p + 2 + |ExprTokens(s.left)|, p + 4 + |ExprTokens(s.left)| + |ExprTokens(s.right)|, mem[..];
              && Holds(m, p + 2, s.left) && Here(m, a, [TOK_OPERATOR, ComparisonCode(s.comparison)])
              && Holds(m, a + 2, s.right) && Here(m, b, [TOK_KEYWORD, KEYWORD_THEN]) && AtStmt(c, b + 2, s.body)
              && b + 2 == p + |StmtTokens(addrs, s)| - |StmtTokens(addrs, s.body)|
      ensures var l, r := Meaning(c.env, s.left), Meaning(c.env, s.right);
              && (l.Err? ==> Result(c, s) == Done(c, s, l.error))
              && (l.Ok? && r.Err? ==> Result(c, s) == Done(c, s, r.error))
              && (l.Ok? && r.Ok? && !Compare(s.comparison, l.value, r.value) ==> Result(c, s) == Done(c, s, 0))
              && (l.Ok? && r.Ok? && Compare(s.comparison, l.value, r.value) ==>
                    BodyDecides(c, s))
    {
      hide Here, ExprTokens, Meaning, ClearExpr, ValidExpr, StackShown, SameOutside, TextOf, StmtTokens, Holds, Placed, Laid;
      Due(c, p, s);
      var m, a := mem[..], p + 2 + |ExprTokens(s.left)|;
      var q := BodyHere(m, addrs, p, s);
      EndedExpr(m, p + 2, s.left, [TOK_OPERATOR, ComparisonCode(s.comparison)]);
      EndedExpr(m, a + 2, s.right, [TOK_KEYWORD, KEYWORD_THEN]);
      HereSplit(m, p, StmtTokens(addrs, s), [TOK_TERMINATOR]);
      HereJoin(m, q, StmtTokens(addrs, s.body), [TOK_TERMINATOR]);
      ExecValid(Nos(lines), Text(), c, s.body);
    }

    lemma BodyPlace(c: Core, p: nat, s: Stmt)
      requires Running(c) && AtStmt(c, p, s)
      ensures |addrs| == |recs| == |lines| && c.cur < |addrs| && ValidLines(lines) && recs == Encode(addrs, lines)
      ensures LastOf(c.cur, p, s) && Here(mem[..], p, StmtTokens(addrs, s) + [TOK_TERMINATOR]) && Laid(mem[..], addrs, recs)
    {
      hide Here, StmtTokens, StackShown, SameOutside, TextOf, Laid, LastOf, Encode;
    }

    /** A statement has failed: it is still there, and can run again. */
    lemma AfterFailure(cur: nat, r: Outcome, before: seq<Byte>, p: nat, s: Stmt, error: int)
      requires Ran(r, before, p, error) && r.stmt == s && r.core.cur == cur
      requires |addrs| == |recs| == |lines| && cur < |addrs| && ValidLines(lines) && recs == Encode(addrs, lines)
      requires LastOf(cur, p, s) && Here(before, p, StmtTokens(addrs, s) + [TOK_TERMINATOR]) && Laid(before, addrs, recs)
      ensures Running(r.core) && AtStmt(r.core, p, s)
      ensures forall a :: 0 <= a < MEMORY && a in Text() ==> mem[a] == before[a]
    {
      hide Here, StmtTokens, StackShown, SameOutside, TextOf, Laid, LastOf, Encode;
      TextKept(Text(), before, mem[..], p, StmtTokens(addrs, s) + [TOK_TERMINATOR]);
      LaidFrame(before, mem[..], start, addrs, recs, endPtr);
    }

    /** What ran since the program text was as it was before. */
    lemma RanSince(r: Outcome, before: seq<Byte>, mid: seq<Byte>, p: nat, error: int)
      requires Ran(r, mid, p, error) && |before| == MEMORY
      requires forall a :: 0 <= a < MEMORY && a in Text() ==> mid[a] == before[a]
      ensures Ran(r, before, p, error)
    {
      hide Here, StmtTokens, Shows, Shaped, TextOf;
    }

    /** The statement of an IF has run: so has the IF. */
    lemma RanInside(r: Outcome, inner: Outcome, before: seq<Byte>, p: nat, q: nat, s: Stmt, error: int)
      requires Ran(inner, before, q, error) && s.If? && ValidStmt(|addrs|, s) && inner.Done?
      requires r == AroundBody(s, inner)
      requires |before| == MEMORY && Here(before, p, StmtTokens(addrs, s)) && q == p + |StmtTokens(addrs, s)| - |StmtTokens(addrs, s.body)|
      requires forall a :: p <= a < p + |StmtTokens(addrs, s)| + 1 ==> a in Text()
      ensures Ran(r, before, p, error)
    {
      hide Here, StmtTokens, Shows, Shaped, TextOf, ExprTokens, ValidExpr;
      var s', m := r.stmt, mem[..];
      IfTokens(addrs, s);
      IfTokens(addrs, s');
      HereSplit(before, p, IfPrefix(s), StmtTokens(addrs, s.body));
      HereFrame(before, m, p, IfPrefix(s));
      HereJoin(m, p, IfPrefix(s), StmtTokens(addrs, s'.body) + [TOK_TERMINATOR]);
      assert IfPrefix(s) + (StmtTokens(addrs, s'.body) + [TOK_TERMINATOR]) == StmtTokens(addrs, s') + [TOK_TERMINATOR];
    }

    /** Runs the statement of an IF, and where it fails, runs it again for the error. */
    method RunBody(toks: nat, ghost p: nat, ghost c: Core, ghost s: Stmt) returns (error: int)
      requires Running(c) && c.running && AtStmt(c, p, s) && s.If? && BodyDecides(c, s) && AtStmt(c, toks, s.body)
      requires toks == p + |StmtTokens(addrs, s)| - |StmtTokens(addrs, s.body)|
      modifies this`nextLine, this`stack, this`context, this`endPtr, this`running, this`out, registers, mem, eval, eval.numstack
      ensures Ran(old(Result(c, s)), old(mem[..]), p, error)
      decreases s, 0
    {
      hide Here, Running, Shows, Shaped, TextOf, TextAfter, AtStmt, Exec, Ran, StmtTokens, Valid, ValidStmt;
      Due(c, p, s);
      Due(c, toks, s.body);
      RunningShows(c);
      StmtInText(c, p, s);
      ghost var r, before, first := Result(c, s), mem[..], Result(c, s.body);
      ghost var second := if first.error == 0 then first else Result(first.core, s.body);
      BodyPlace(c, toks, s.body);
      error := StatementInterpret(toks, c, s.body);
      RanShows(first, before, toks, error);
      if error != 0 {
        ghost var mid := mem[..];
        AfterFailure(c.cur, first, before, toks, s.body, error);
        error := StatementInterpret(toks, first.core, s.body);
        RanSince(second, before, mid, toks, error);
        RanInside(r, second, before, p, toks, s, error);
        return error;
      }
      RanInside(r, first, before, p, toks, s, error);
      return 0;
    }

    method DoIf(toks0: nat, ghost c: Core, ghost s: Stmt) returns (error: int)
      requires Running(c) && c.running && 2 <= toks0 && AtStmt(c, toks0 - 2, s) && s.If? && Result(c, s).Done?
      modifies this`nextLine, this`stack, this`context, this`endPtr, this`running, this`out, registers, mem, eval, eval.numstack
      ensures Ran(old(Result(c, s)), old(mem[..]), toks0 - 2, error)
      decreases s, 1
    {
      ghost var p := toks0 - 2;
      hide Here, Running, Shows, Shaped, TextOf, TextAfter, AtStmt, Exec, Ran, Meaning, ClearExpr, ExprTokens, StmtTokens, Holds, Valid,
           ValidStmt;
      Due(c, p, s);
      IfAt(c, p, s);
      StmtInText(c, p, s);
      RunningShows(c);
      ghost var r, before := Result(c, s), mem[..];
      var toks := toks0;
      var e1, val1, end1 := Evaluate(toks, c, s.left);
      if e1 != 0 {
        e1, val1, end1 := Evaluate(toks, c, s.left);
        RanQuietly(r, before, p, s, e1);
        return e1;
      }
      PairHere(before, end1, TOK_OPERATOR, ComparisonCode(s.comparison));
      ComparisonRead(s.comparison, 0, 0);
      if !(mem[end1] == TOK_OPERATOR && IsComparison(mem[end1 + 1])) { return ERROR_SYNTAX; }
      var op := mem[end1 + 1];
      toks := end1 + OP_SIZE;
      var e2, val2, end2 := Evaluate(toks, c, s.right);
      if e2 != 0 {
        e2, val2, end2 := Evaluate(toks, c, s.right);
        RanQuietly(r, before, p, s, e2);
        return e2;
      }
      PairHere(before, end2, TOK_KEYWORD, KEYWORD_THEN);
      if !(mem[end2] == TOK_KEYWORD && mem[end2 + 1] == KEYWORD_THEN) { return ERROR_SYNTAX; }
      toks := end2 + KW_SIZE;
      ComparisonRead(s.comparison, val1, val2);
      var result := DoComparison(op, val1, val2);
      if result < 0 { return ERROR_SYNTAX; }
      if result > 0 {
        error := RunBody(toks, p, c, s);
        return error;
      }
      RanQuietly(r, before, p, s, 0);
      return 0;
    }

    /** The first tokens tell the kind of a statement. */
    lemma KindAt(c: Core, p: nat, s: Stmt)
      requires Running(c) && AtStmt(c, p, s)
      ensures p + 1 < MEMORY
      ensures mem[p] == TOK_KEYWORD <==> !s.Remark? && !s.Let?
      ensures mem[p] == TOK_KEYWORD ==> mem[p + 1] == KeywordOf(s)
      ensures mem[p] == TOK_VARIABLE || mem[p] == TOK_REGISTER <==> s.Let?
      ensures mem[p] == TOK_REMARK <==> s.Remark?
      ensures mem[p] != TOK_ALLOC && mem[p] != TOK_NUMERIC
    {
      hide Here, StackShown, SameOutside, TextOf, TextAfter, StmtTokens, ValidExpr, ExprTokens;
      Due(c, p, s);
      HereAt(mem[..], p, StmtTokens(addrs, s), 0);
      HereAt(mem[..], p, StmtTokens(addrs, s), 1);
      StmtHead(addrs, s);
    }

    lemma RemarkAt(c: Core, p: nat, s: Stmt)
      requires Running(c) && AtStmt(c, p, s) && s.Remark?
      ensures Ran(Result(c, s), mem[..], p, 0)
    {
      hide Here, StackShown, SameOutside, TextOf, TextAfter, StmtTokens, Shows, Shaped;
      Due(c, p, s);
      RunningShows(c);
      RanQuietly(Result(c, s), mem[..], p, s, 0);
    }

    /** Runs a statement of the program. */
    method StatementInterpret(p: nat, ghost c: Core, ghost s: Stmt) returns (error: int)
      requires Running(c) && c.running && AtStmt(c, p, s) && Result(c, s).Done?
      modifies this`nextLine, this`stack, this`context, this`endPtr, this`running, this`out, registers, mem, eval, eval.numstack
      ensures Ran(old(Result(c, s)), old(mem[..]), p, error)
      decreases s, 2
    {
      hide Here, Running, Shows, Shaped, TextOf, AtStmt, Exec, Ran, Valid, ValidStmt;
      Due(c, p, s);
      KindAt(c, p, s);
      RunningShows(c);
      var kind := mem[p];
      if kind == TOK_KEYWORD {
        var kw := mem[p + 1];
        if kw == KEYWORD_PRINT {
          error := DoPrint(p + 2, c, s);
        } else if kw == KEYWORD_END {
          error := DoEnd(p, c, s);
        } else if kw == KEYWORD_GOTO {
          error := DoGoto(p + 2, c, s);
        } else if kw == KEYWORD_FOR {
          error := DoFor(p + 2, c, s);
        } else if kw == KEYWORD_NEXT {
          error := DoNext(p + 2, c, s);
        } else if kw == KEYWORD_GOSUB {
          error := DoGosub(p + 2, c, s);
        } else if kw == KEYWORD_RETURN {
          error := DoReturn(p, c, s);
        } else if kw == KEYWORD_DIM {
          error := DoDim(p + 2, c, s);
        } else if kw == KEYWORD_IF {
          error := DoIf(p + 2, c, s);
        } else if kw == KEYWORD_JUMPTO {
          error := DoJumpto(p + 2, c, s);
        } else if kw == KEYWORD_JUMPSUB {
          error := DoJumpsub(p + 2, c, s);
        } else {
          return ERROR_SYNTAX;
        }
        return;
      } else if kind == TOK_VARIABLE || kind == TOK_REGISTER {
        error := Assignment(p, c, s);
        return;
      } else if kind == TOK_REMARK {
        RemarkAt(c, p, s);
        return 0;
      }
      return ERROR_SYNTAX;
    }

    // ----- Runs -----

    /** The current line's statement lies behind its header. */
    lemma LineAt(c: Core)
      requires Running(c)
      ensures ValidStmt(|lines|, lines[c.cur].stmt) && AtStmt(c, currentLine + PROG_HDR_SIZE, lines[c.cur].stmt)
    {
      hide Here, StackShown, SameOutside, TextOf, StmtTokens;
      assert RecHere(mem[..], addrs, recs, c.cur);
    }

    /** After a line has run, its record is that of its rewritten statement. */
    lemma LineRewritten(c: Core, before: seq<Byte>, r: Outcome, error: int)
      requires |addrs| == |recs| == |lines| && ValidLines(lines) && ValidCore(|lines|, c) && recs == Encode(addrs, lines)
      requires Laid(before, addrs, recs) && ValidStmt(|lines|, lines[c.cur].stmt) && r == Result(c, lines[c.cur].stmt)
      requires Ran(r, before, addrs[c.cur] + PROG_HDR_SIZE, error)
      ensures var lines' := SetStmt(lines, c.cur, r.stmt);
              && ValidLines(lines') && StackShown(addrs, lines', stack, r.core.stack)
              && Laid(mem[..], addrs, Encode(addrs, lines')) && Placed(start, addrs, Encode(addrs, lines'), endPtr)
              && TextOf(addrs, Encode(addrs, lines')) == TextOf(addrs, recs)
    {
      assert c.cur < |lines|;
      hide Here, StackShown, SameOutside, TextOf, Encode, Laid, Placed, Exec, Patched, TextAfter, StmtTokens, ValidCore, ValidStmt;
      SelfPatched(Nos(lines), Text(), c, lines[c.cur].stmt);
      PatchedSizes(addrs, lines, c.cur, r.stmt);
      PatchLaid(before, mem[..], start, addrs, lines, c.cur, r.stmt, endPtr);
      PatchStack(addrs, lines, c.cur, r.stmt, stack, r.core.stack);
      PlacedAlike(start, addrs, recs, Encode(addrs, SetStmt(lines, c.cur, r.stmt)), endPtr);
    }

    /** Runs the next line. */
    method RunLine(ghost c: Core) returns (e: int)
      requires Between(c) && Valid() && recs == Encode(addrs, lines) && c.next.Some? && c.running
      requires Exec(Nos(lines), Text(), Arrive(Nos(lines), c), lines[c.next.value].stmt).Done?
      modifies this`currentLine, this`nextLine, this`stack, this`context, this`endPtr, this`running, this`out, this`lines, this`recs
      modifies registers, mem, eval, eval.numstack
      ensures var r := old(Exec(Nos(lines), Text(), Arrive(Nos(lines), c), lines[c.next.value].stmt));
              && r.Done? && e == r.error && Between(r.core)
              && lines == old(SetStmt(lines, c.next.value, r.stmt))
      ensures |addrs| == |recs| == |lines| && ValidLines(lines) && Valid() && recs == Encode(addrs, lines) && Text() == old(Text())
    {
      hide Here, StackShown, SameOutside, TextOf, Encode, Laid, Placed, Exec, TextAfter, StmtTokens, ValidStmt, Ran, AtStmt, NextLine;
      ghost var i, c1 := c.next.value, Arrive(Nos(lines), c);
      LinkAt(i);
      currentLine := nextLine;
      var stmt := currentLine + PROG_HDR_SIZE;
      nextLine := NextLine(currentLine);
      assert Running(c1);
      LineAt(c1);
      KindAt(c1, stmt, lines[i].stmt);
      ghost var r, before := Result(c1, lines[i].stmt), mem[..];
      if mem[stmt] == TOK_ALLOC || mem[stmt] == TOK_NUMERIC { return ERROR_SYNTAX; }
      e := StatementInterpret(stmt, c1, lines[i].stmt);
      LineRewritten(c1, before, r, e);
      RanShows(r, before, stmt, e);
      lines := SetStmt(lines, i, r.stmt);
      recs := Encode(addrs, lines);
    }

    lemma RanShows(r: Outcome, before: seq<Byte>, p: nat, error: int)
      requires Ran(r, before, p, error)
      ensures r.Done? && Shows(r.core) && Shaped() && error == r.error
    {
    }

    /** Ends a run. */
    method End(error0: int, ghost c: Core) returns (error: int)
      requires Between(c) && Valid()
      modifies this`running
      ensures Between(c.(running := false)) && Valid() && !running && error == if old(running) then error0 else ERROR_NOT_RUNNING
    {
      hide StackShown, SameOutside, TextOf, Laid, Placed;
      if !running { return ERROR_NOT_RUNNING; }
      running := false;
      return error0;
    }

    /** One step of the machine is one line run. */
    lemma StepIsLine(text: set<int>, r: Run)
      requires Proper(r) && r.Going? && !Step(text, r, true).Crashed?
      ensures r.core.next.Some? && r.core.next.value < |r.lines| && r.core.running && ValidCore(|r.lines|, r.core)
      ensures var c, s := Arrive(Nos(r.lines), r.core), r.lines[r.core.next.value].stmt;
              && ValidCore(|r.lines|, c) && ValidStmt(|r.lines|, s) && c.cur == r.core.next.value
              && var done := Exec(Nos(r.lines), text, c, s);
                 && done.Done? && Step(text, r, true) == Settle(SetStmt(r.lines, c.cur, done.stmt), done)
    {
      hide Exec, SetStmt, ValidStmt;
    }

    /** Sets up a run: variables and the return stack are cleared, the first line is next. */
    method Prepare(ghost program: seq<Line>)
      requires Valid() && ValidLines(program) && |program| == |addrs| && recs == Encode(addrs, program)
      modifies this`nextLine, this`stack, this`context, this`running, this`lines
      ensures var r := old(Begin(program, registers[..], mem[..], endPtr, out)); r.Going? && r.lines == program && Between(r.core)
      ensures Valid() && lines == program && running && nextLine != 0
    {
      hide Here, TextOf, Laid;
      running := true;
      nextLine := start;
      context := [];
      stack := [];
      lines := program;
    }

    /** A run can always begin. */
    lemma CanBegin(program: seq<Line>)
      requires Valid() && ValidLines(program)
      ensures Proper(Begin(program, registers[..], mem[..], endPtr, out))
    {
      hide Laid;
      BeginProper(program, registers[..], mem[..], endPtr, out);
    }

    lemma BetweenNext(c: Core)
      requires Between(c) && Valid()
      ensures nextLine == 0 <==> c.next.None?
      ensures running == c.running
    {
      hide StackShown, SameOutside, TextOf, Laid;
    }

    /** Runs the program. Its jumps overwrite themselves, and where the machine that searches for every
        jump ends after `n` lines, the run ends, with that machine's error, variables and output. The
        text is that machine's with some jumps rewritten. */
    method Run(ghost program: seq<Line>, ghost n: nat) returns (error: int)
      requires Valid() && ValidLines(program) && |program| == |addrs| && recs == Encode(addrs, program)
      requires Proper(Begin(program, registers[..], mem[..], endPtr, out))
      requires Steps(Text(), Begin(program, registers[..], mem[..], endPtr, out), n, false).Ended?
      modifies this`currentLine, this`nextLine, this`stack, this`context, this`endPtr, this`running, this`out, this`lines, this`recs
      modifies registers, mem, eval, eval.numstack
      ensures var r := old(Steps(Text(), Begin(program, registers[..], mem[..], endPtr, out), n, false));
              && r.Ended? && error == r.error && Between(r.core) && LinesPatched(program, lines)
      ensures Valid() && recs == Encode(addrs, lines) && !running
    {
      hide Steps, Step, Agree, Proper, Begin, Placed, Laid, Between, Exec, TextOf, Encode, Settle, SetStmt, LinesPatched, Nos, ValidLines, ValidStmt;
      ghost var text, r0 := Text(), Begin(program, registers[..], mem[..], endPtr, out);
      RunsAgree(text, r0, n);
      AgreeEnds(Steps(text, r0, n, false), Steps(text, r0, n, true));
      SearchKeepsLines(text, r0, n);
      Prepare(program);
      ghost var r, k := r0, n;
      while nextLine != 0
        invariant |addrs| == |recs| == |lines| && ValidLines(lines)
        invariant Proper(r) && r.Going? && Between(r.core) && lines == r.lines && Valid() && recs == Encode(addrs, lines)
        invariant Text() == text && nextLine != 0
        invariant Steps(text, r, k, true) == Steps(text, r0, n, true)
        decreases k
      {
        StepAhead(text, r, k, true);
        StepIsLine(text, r);
        ghost var d := Exec(Nos(r.lines), text, Arrive(Nos(r.lines), r.core), r.lines[r.core.next.value].stmt);
        var e := RunLine(r.core);
        BetweenNext(d.core);
        SettleCases(SetStmt(r.lines, r.core.next.value, d.stmt), d);
        if !running { break; }
        if e != 0 {
          error := End(e, d.core);
          return;
        }
        if nextLine == 0 {
          error := End(ERROR_GOTO, d.core);
          return;
        }
        r, k := Step(text, r, true), k - 1;
      }
      return 0;
    }
  }

  /** An expression with what follows it. */
  lemma EndedExpr(mem: seq<Byte>, p: nat, e: Expr, rest: seq<Byte>)
    requires ValidExpr(e) && Here(mem, p, ExprTokens(e)) && Here(mem, p + |ExprTokens(e)|, rest) && rest != []
    requires rest[0] == TOK_TERMINATOR || rest[0] == TOK_SEPARATOR || rest[0] == TOK_KEYWORD
             || (1 < |rest| && rest[0] == TOK_OPERATOR && IsComparison(rest[1]))
    ensures Holds(mem, p, e)
  {
    hide Here, ExprTokens, ValidExpr;
    HereAt(mem, p + |ExprTokens(e)|, rest, 0);
    if rest[0] == TOK_OPERATOR {
      HereAt(mem, p + |ExprTokens(e)|, rest, 1);
    }
  }

  lemma EqualNoParen(mem: seq<Byte>, p: nat)
    requires Here(mem, p, [TOK_OPERATOR, OP_EQUAL])
    ensures NoParen(mem, p)
  {
    PairHere(mem, p, TOK_OPERATOR, OP_EQUAL);
  }

  lemma AssignNowhere(text: set<int>, c: Core, place: Result<Place>, e: Expr, s: Stmt)
    requires ValidEnv(c.env) && ValidExpr(e) && place.Err?
    ensures AssignTo(text, c, place, e, s) == Done(c, s, place.error)
  {
  }

  lemma AllocOutside(text: set<int>, data: seq<Byte>, mem: seq<Byte>, a: nat, bs: seq<Byte>)
    requires SameOutside(text, data, mem) && a + |bs| <= MEMORY && forall k :: k in text ==> k < a
    ensures SameOutside(text, Overwrite(data, a, bs), Overwrite(mem, a, bs))
    ensures forall k :: 0 <= k < MEMORY && k in text ==> Overwrite(mem, a, bs)[k] == mem[k]
  {
    hide Overwrite;
  }

  lemma DimCases(c: Core, v: Var, size: Int16, s: Stmt)
    requires ValidEnv(c.env) && ValidVar(v) && ExecDim(c, v, size, s).Done?
    ensures Pattern(size) == size % MEMORY
    ensures Pattern(size) > 127 ==> ExecDim(c, v, size, s) == Done(c, s, ERROR_RANGE)
    ensures Pattern(size) <= 127 ==>
              && c.end + 2 + 2 * Pattern(size) <= MEMORY && (v.Named? ==> |c.env.context| < MAX_VARS)
              && ExecDim(c, v, size, s) == Done(WithArray(c, v, 2 * Pattern(size)), s, 0)
  {
  }

  /** What follows a printed item: the end, or a separator and the other items. */
  ghost predicate AfterItem(mem: seq<Byte>, p: nat, items: seq<PrintItem>)
    requires items != [] && ValidItems(items)
  {
    && p < |mem|
    && (|items| == 1 ==> mem[p] == TOK_TERMINATOR)
    && (|items| > 1 ==> mem[p] == TOK_SEPARATOR && Here(mem, p + 1, ItemsBytes(items[1..]) + [TOK_TERMINATOR]))
  }

  lemma AfterItemCases(mem: seq<Byte>, p: nat, items: seq<PrintItem>)
    requires items != [] && ValidItems(items) && AfterItem(mem, p, items)
    ensures p < |mem| && (mem[p] == TOK_TERMINATOR <==> |items| == 1) && (mem[p] == TOK_SEPARATOR <==> |items| > 1)
    ensures |items| > 1 ==> Here(mem, p + 1, ItemsBytes(items[1..]) + [TOK_TERMINATOR])
    ensures |items| == 1 ==> items[1..] == []
  {
    hide Here, ItemsBytes;
  }

  /** The first item to print, and what follows it. */
  lemma ItemAt(mem: seq<Byte>, p: nat, items: seq<PrintItem>)
    requires items != [] && ValidItems(items)
    requires Here(mem, p, ItemsBytes(items) + [TOK_TERMINATOR])
    ensures ValidItem(items[0]) && p + 1 < |mem| && AfterItem(mem, p + |ItemBytes(items[0])|, items)
    ensures mem[p] == TOK_STRING <==> items[0].Text?
    ensures items[0].Text? ==>
              && mem[p + 1] == |items[0].bytes| + 1 && |ItemBytes(items[0])| == |items[0].bytes| + 3
              && Here(mem, p + 2, items[0].bytes + [0]) && 0 !in items[0].bytes
    ensures items[0].Number? ==> Holds(mem, p, items[0].e) && ItemBytes(items[0]) == ExprTokens(items[0].e)
  {
    hide Here, ItemsBytes, ItemBytes, ValidItem, ValidItems;
    ItemsJoin(items);
    var bs, q := ItemBytes(items[0]), p + |ItemBytes(items[0])|;
    if |items| == 1 {
      HereSplit(mem, p, bs, [TOK_TERMINATOR]);
      HereAt(mem, q, [TOK_TERMINATOR], 0);
      ItemKind(mem, p, items[0], [TOK_TERMINATOR]);
    } else {
      var rest := ItemsBytes(items[1..]) + [TOK_TERMINATOR];
      HereSplit(mem, p, bs, [TOK_SEPARATOR] + rest);
      HereSplit(mem, q, [TOK_SEPARATOR], rest);
      HereAt(mem, q, [TOK_SEPARATOR], 0);
      ItemKind(mem, p, items[0], [TOK_SEPARATOR]);
    }
  }

  lemma ItemKind(mem: seq<Byte>, p: nat, item: PrintItem, rest: seq<Byte>)
    requires ValidItem(item) && Here(mem, p, ItemBytes(item)) && Here(mem, p + |ItemBytes(item)|, rest)
    requires rest == [TOK_TERMINATOR] || rest == [TOK_SEPARATOR]
    ensures p + 1 < |mem| && (mem[p] == TOK_STRING <==> item.Text?)
    ensures item.Text? ==>
              && mem[p + 1] == |item.bytes| + 1 && |ItemBytes(item)| == |item.bytes| + 3
              && Here(mem, p + 2, item.bytes + [0]) && 0 !in item.bytes
    ensures item.Number? ==> Holds(mem, p, item.e) && ItemBytes(item) == ExprTokens(item.e)
  {
    hide Here, ExprTokens, ValidExpr, Holds;
    if item.Text? {
      TextItem(mem, p, item.bytes);
    } else {
      EndedExpr(mem, p, item.e, rest);
      ExprHead(item.e);
      HereAt(mem, p, ExprTokens(item.e), 0);
      HereAt(mem, p, ExprTokens(item.e), 1);
    }
  }

  lemma ItemsJoin(items: seq<PrintItem>)
    requires items != [] && ValidItems(items)
    ensures ValidItem(items[0]) && ValidItems(items[1..])
    ensures |items| == 1 ==> ItemsBytes(items) == ItemBytes(items[0])
    ensures |items| > 1 ==> ItemsBytes(items) + [TOK_TERMINATOR]
                            == ItemBytes(items[0]) + ([TOK_SEPARATOR] + (ItemsBytes(items[1..]) + [TOK_TERMINATOR]))
  {
    if |items| > 1 {
      var a, b := ItemBytes(items[0]), ItemsBytes(items[1..]);
      assert ItemsBytes(items) == a + ([TOK_SEPARATOR] + b);
      hide ItemBytes, ItemsBytes;
      JoinAssoc(a, [TOK_SEPARATOR], b, [TOK_TERMINATOR]);
    }
  }

  lemma JoinAssoc(a: seq<Byte>, b: seq<Byte>, c: seq<Byte>, d: seq<Byte>)
    ensures (a + (b + c)) + d == a + (b + (c + d))
  {
  }

  lemma TextItem(mem: seq<Byte>, p: nat, bytes: seq<Byte>)
    requires |bytes| < 0xff && Here(mem, p, [TOK_STRING, |bytes| + 1] + (bytes + [0]))
    ensures p + 1 < |mem| && mem[p] == TOK_STRING && mem[p + 1] == |bytes| + 1 && Here(mem, p + 2, bytes + [0])
  {
    hide Here;
    HereSplit(mem, p, [TOK_STRING, |bytes| + 1], bytes + [0]);
    PairHere(mem, p, TOK_STRING, |bytes| + 1);
  }

  lemma ExprHead(e: Expr)
    requires ValidExpr(e)
    ensures ExprTokens(e)[0] != TOK_STRING && 2 <= |ExprTokens(e)|
  {
    hide OperandTokens, TailTokens;
    OperandHead(e.first);
  }

  lemma PrintStep(text: set<int>, c: Core, items: seq<PrintItem>, s: Stmt)
    requires ValidEnv(c.env) && items != [] && ValidItems(items)
    requires ExecPrint(text, c, items, s).Done?
    ensures items[0].Text? ==>
              ExecPrint(text, c, items, s) == ExecPrint(text, c.(out := c.out + [Word(items[0].bytes)]), items[1..], s)
    ensures items[0].Number? ==>
              var e := items[0].e;
              && ValidExpr(e) && ClearExpr(text, c.env, e)
              && (Meaning(c.env, e).Err? ==> ExecPrint(text, c, items, s) == Done(c, s, Meaning(c.env, e).error))
              && (Meaning(c.env, e).Ok? ==>
                    ExecPrint(text, c, items, s)
                    == ExecPrint(text, c.(out := c.out + [Value(Meaning(c.env, e).value)]), items[1..], s))
  {
    hide Meaning, ClearExpr, ValidExpr;
    assert ValidItem(items[0]);
  }

  lemma PrintEnd(text: set<int>, c: Core, s: Stmt)
    requires ValidEnv(c.env)
    ensures ExecPrint(text, c, [], s) == Done(c.(out := c.out + [NewLine]), s, 0)
  {
  }

  lemma SettleCases(lines: seq<Line>, d: Outcome)
    requires d.Done?
    ensures var c := d.core;
            Settle(lines, d)
            == if !c.running then Ended(lines, c, 0)
               else if d.error != 0 then Ended(lines, c.(running := false), d.error)
               else if c.next.None? then Ended(lines, c.(running := false), ERROR_GOTO)
               else Going(lines, c)
  {
  }

  lemma HoldsValid(mem: seq<Byte>, p: nat, e: Expr)
    requires Holds(mem, p, e)
    ensures ValidExpr(e)
  {
  }

  lemma PairHere(mem: seq<Byte>, p: nat, a: Byte, b: Byte)
    requires Here(mem, p, [a, b])
    ensures p + 1 < |mem| && mem[p] == a && mem[p + 1] == b
  {
    HereAt(mem, p, [a, b], 0);
    HereAt(mem, p, [a, b], 1);
  }

  lemma StringHere(mem: seq<Byte>, p: nat, a: seq<Byte>)
    requires Here(mem, p, a + [0])
    ensures p + |a| < |mem| && mem[p + |a|] == 0 && forall j :: p <= j < p + |a| ==> mem[j] == a[j - p]
  {
    hide Here;
    forall j | p <= j < p + |a| ensures j < |mem| && mem[j] == a[j - p] {
      HereAt(mem, p, a + [0], j - p);
    }
    HereAt(mem, p, a + [0], |a|);
  }

  /** A name token read as a string starts with its size. */
  lemma NameString(mem: seq<Byte>, p: nat, name: VarName)
    requires Here(mem, p, VarTokens(Named(name)))
    ensures Here(mem, p + 1, ([|name| + 1] + name) + [0]) && 0 !in [|name| + 1] + name
  {
    hide Here, Letters;
    var bs := VarTokens(Named(name));
    assert bs == [TOK_VARIABLE] + bs[1..] && bs[1..] == ([|name| + 1] + name) + [0];
    HereSplit(mem, p, [TOK_VARIABLE], bs[1..]);
    NoZero(name);
  }

  lemma NoZero(name: VarName)
    ensures 0 !in [|name| + 1] + name
  {
  }

  /** The bytes of a jump. */
  lemma JumpHere(mem: seq<Byte>, p: nat, code: Byte, w: Word)
    requires Here(mem, p, JumpBytes(code, w) + [TOK_TERMINATOR])
    ensures p + 5 < |mem| && mem[p + 2] == TOK_NUMERIC && WordAt(mem, p + 3) == w
    ensures mem[p] == TOK_KEYWORD && mem[p + 1] == code && mem[p + 5] == TOK_TERMINATOR
  {
    var bs := JumpBytes(code, w) + [TOK_TERMINATOR];
    assert mem[p..p + 6] == bs;
    assert forall i :: 0 <= i < 6 ==> mem[p + i] == bs[i];
  }

  lemma JumpLies(mem: seq<Byte>, p: nat, code: Byte, w: Word)
    requires p + 5 < |mem| && mem[p + 2] == TOK_NUMERIC && WordAt(mem, p + 3) == w
    requires mem[p] == TOK_KEYWORD && mem[p + 1] == code && mem[p + 5] == TOK_TERMINATOR
    ensures Here(mem, p, JumpBytes(code, w) + [TOK_TERMINATOR])
  {
    BytesOfWord(mem[p + 3], mem[p + 4]);
    hide WordBytes, ToWord;
    assert mem[p..p + 6] == [mem[p], mem[p + 1], mem[p + 2], mem[p + 3], mem[p + 4], mem[p + 5]];
  }

  lemma BytesOfWord(low: Byte, high: Byte)
    ensures WordBytes(ToWord(low, high)) == [low, high]
  {
    TwoBytes([low, high]);
  }

  /** What leaves the text alone leaves a statement there. */
  lemma TextKept(text: set<int>, mem: seq<Byte>, mem': seq<Byte>, p: nat, bs: seq<Byte>)
    requires TextAfter(text, mem, mem', p, bs) && Here(mem, p, bs)
    ensures forall a :: 0 <= a < MEMORY && a in text ==> mem'[a] == mem[a]
  {
    hide Here;
    forall a | p <= a < p + |bs| ensures a < |mem| && mem'[a] == mem[a] {
      HereAt(mem, p, bs, a - p);
      HereAt(mem', p, bs, a - p);
    }
  }

  lemma TextUntouched(text: set<int>, mem: seq<Byte>, mem': seq<Byte>, p: nat, bs: seq<Byte>)
    requires |mem| == MEMORY && Here(mem, p, bs)
    requires mem' == mem || (|mem'| == |mem| && (forall a :: p <= a < p + |bs| ==> a in text)
                             && (forall a :: 0 <= a < MEMORY && a in text ==> mem'[a] == mem[a]))
    ensures TextAfter(text, mem, mem', p, bs)
  {
    assert p + |bs| <= |mem|;
    hide Here;
    if mem' != mem {
      HereFrame(mem, mem', p, bs);
    }
  }

  /** Writing over a statement changes nothing outside the text, and nothing else in it. */
  lemma TextWritten(text: set<int>, data: seq<Byte>, mem: seq<Byte>, mem': seq<Byte>, p: nat, bs: seq<Byte>)
    requires SameOutside(text, data, mem) && |mem'| == |mem| && Here(mem', p, bs)
    requires forall a :: p <= a < p + |bs| ==> a in text
    requires forall a :: 0 <= a < MEMORY && !(p <= a < p + |bs|) ==> mem'[a] == mem[a]
    ensures SameOutside(text, data, mem') && TextAfter(text, mem, mem', p, bs)
  {
  }

  lemma BackStep(nos: seq<Int16>, i: nat, n: Int16)
    requires i < |nos|
    ensures Back(nos, i, n)
            == if nos[i] < n then Following(nos, i) else if i == 0 then None else Back(nos, i - 1, n)
  {
  }

  lemma AheadStep(nos: seq<Int16>, i: nat, n: Int16)
    requires i < |nos|
    ensures Ahead(nos, i, n)
            == if nos[i] >= n then Some(i) else if i + 1 == |nos| then None else Ahead(nos, i + 1, n)
  {
  }

  lemma PlacedBounds(start: Word, addrs: seq<Word>, recs: seq<Rec>, end: nat)
    requires Placed(start, addrs, recs, end)
    ensures |addrs| == |recs| && 0 < start <= end <= MEMORY
    ensures addrs != [] ==> 0 < addrs[|addrs| - 1] && addrs[|addrs| - 1] + PROG_HDR_SIZE <= end
  {
    assert addrs != [] ==> RecEnd(addrs, recs, |addrs| - 1) <= end;
  }

  lemma BytesHere(toks: seq<Byte>, p: nat, bs: seq<Byte>)
    requires Here(toks, p, bs)
    ensures p + |bs| <= |toks| && toks[p..p + |bs|] == bs
  {
  }

  lemma NumberHere(toks: seq<Byte>, p: nat, x: Int16)
    requires Here(toks, p, NumberBytes(x))
    ensures p + 2 < |toks| && toks[p] == TOK_NUMERIC && Wrap(ToWord(toks[p + 1], toks[p + 2])) == x
    ensures ToWord(toks[p + 1], toks[p + 2]) == Pattern(x)
  {
    HereAt(toks, p, NumberBytes(x), 0);
    HereAt(toks, p, NumberBytes(x), 1);
    HereAt(toks, p, NumberBytes(x), 2);
  }
}
