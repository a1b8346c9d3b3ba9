/** A session: lines of source text go through the tokenizer into program memory, and are run. */
module Sessions {
  import opened Bytes
  import opened Expressions
  import opened Statements
  import opened Programs
  import opened Tokens
  import opened Lexing
  import opened Tokenizers
  import opened ProgramTexts
  import opened Sources
  import opened Interpreters

  /** A program that can be typed in. */
  predicate Writable(program: seq<Line>) {
    ValidLines(program) && forall i :: 0 <= i < |program| ==> WritableLine(program[i])
  }

  /** The text of line `i`. */
  function LineText(program: seq<Line>, i: nat): string
    requires ValidLines(program) && i < |program| && Statement(WriteLine(|program|, program[i]))
  {
    Source(WriteLine(|program|, program[i]))
  }

  /** Addresses, as many as the program has lines; which ones is of no matter before any jump is rewritten. */
  function Unplaced(n: nat): (addrs: seq<Word>)
    ensures |addrs| == n
  {
    seq(n, i => 0)
  }

  function StmtBytes(program: seq<Line>, i: nat): seq<Byte>
    requires ValidLines(program) && i < |program|
  {
    StmtTokens(Unplaced(|program|), program[i].stmt)
  }

  /** The memory that the first `i` lines take. */
  function TextSize(program: seq<Line>, i: nat): nat
    requires ValidLines(program) && i <= |program|
  {
    if i == 0 then 0 else TextSize(program, i - 1) + PROG_HDR_SIZE + |StmtBytes(program, i - 1)| + 1
  }

  lemma {:induction false} TextGrows(program: seq<Line>, i: nat, j: nat)
    requires ValidLines(program) && i <= j <= |program|
    ensures TextSize(program, i) <= TextSize(program, j)
    decreases j
  {
    hide StmtBytes;
    if i < j {
      TextGrows(program, i, j - 1);
    }
  }

  /** Only rewritten jumps depend on where lines are. */
  lemma {:induction false} TokensAnywhere(addrs: seq<Word>, addrs': seq<Word>, s: Stmt)
    requires |addrs| == |addrs'| && ValidStmt(|addrs|, s) && WritableStmt(s)
    ensures StmtTokens(addrs, s) == StmtTokens(addrs', s)
  {
    hide ExprTokens, ItemsBytes, OperandTokens, VarTokens, NumberBytes, ValidExpr, ValidOperand;
    if s.If? {
      TokensAnywhere(addrs, addrs', s.body);
    }
  }

  /** What a line of text leaves in the token buffer. */
  lemma LineTokens(program: seq<Line>, i: nat) returns (ts: seq<Lexeme>)
    requires Writable(program) && i < |program|
    ensures Statement(WriteLine(|program|, program[i])) && IsText(LineText(program, i))
    ensures LexAll(LineText(program, i)) == Tokens([Numeric(program[i].no)] + ts) && AllBytes(ts) == StmtBytes(program, i)
    ensures AllBytes([Numeric(program[i].no)] + ts) == NumberBytes(program[i].no) + StmtBytes(program, i)
  {
    hide LexAll, Source, StmtTokens, WriteStmt, ValidStmt, AllBytes, NumberBytes;
    LineLexes(Unplaced(|program|), program[i]);
    ts := Meanings(WriteStmt(|program|, program[i].stmt));
  }

  /** Takes one line of text: tokenizes it, and inserts it into the program if it has a number. */
  method ProcessLine(basic: Interpreter, statement: array<Byte>, input: string, ghost no: Int16, ghost ts: seq<Lexeme>)
    returns (error: int)
    requires basic.Valid() && statement.Length == BUFFER_SIZE && statement as object != basic.mem
    requires IsText(input) && LexedSize(input) < BUFFER_SIZE && LexAll(input) == Tokens([Numeric(no)] + ts)
    requires AllBytes([Numeric(no)] + ts) == NumberBytes(no) + AllBytes(ts) && |AllBytes(ts)| < 0xff
    requires basic.endPtr + PROG_HDR_SIZE + |AllBytes(ts)| < MEMORY && (basic.addrs == [] ==> basic.endPtr == basic.start)
    modifies statement, basic.mem, basic`endPtr, basic`lastInserted, basic`addrs, basic`recs
    ensures error == 0 && basic.Valid() && basic.endPtr == old(basic.endPtr) + PROG_HDR_SIZE + |AllBytes(ts)| + 1
    ensures basic.addrs == old(basic.addrs) + [old(basic.endPtr)]
    ensures basic.recs == old(basic.recs) + [Rec(no, AllBytes(ts) + [TOK_TERMINATOR])]
  {
    hide LexAll, LexedSize, AllBytes, NumberBytes, Here;
    error := Tokenize(statement, input);
    if error != 0 { return error; }
    assert (NumberBytes(no) + AllBytes(ts)) + [TOK_TERMINATOR] == NumberBytes(no) + (AllBytes(ts) + [TOK_TERMINATOR]);
    HereSplit(statement[..], 0, NumberBytes(no), AllBytes(ts) + [TOK_TERMINATOR]);
    NumberHere(statement[..], 0, no);
    if statement[0] == TOK_NUMERIC {
      error := basic.Insert(statement[..], no, ts);
    }
  }

  /** The first `i` lines are in memory. */
  ghost predicate Loaded(basic: Interpreter, program: seq<Line>, i: nat)
    requires ValidLines(program) && i <= |program|
    reads basic, basic.mem
  {
    && basic.Valid() && |basic.addrs| == |basic.recs| == i && basic.endPtr == basic.start + TextSize(program, i)
    && forall j :: 0 <= j < i ==> basic.recs[j] == Rec(program[j].no, StmtBytes(program, j) + [TOK_TERMINATOR])
  }

  /** Loaded completely, the records are the encoding of the program. */
  lemma LoadedAll(basic: Interpreter, program: seq<Line>)
    requires Writable(program) && Loaded(basic, program, |program|)
    ensures basic.recs == Encode(basic.addrs, program)
  {
    hide StmtTokens, ValidStmt, WritableStmt;
    forall j | 0 <= j < |program| ensures basic.recs[j] == Encode(basic.addrs, program)[j] {
      TokensAnywhere(Unplaced(|program|), basic.addrs, program[j].stmt);
    }
  }

  /** Types in a program, line by line, from its text: afterwards it is in memory, ready to run. */
  method Load(basic: Interpreter, texts: seq<string>, ghost program: seq<Line>) returns (error: int)
    requires basic.Valid() && basic.addrs == [] && basic.endPtr == basic.start && Writable(program) && |texts| == |program|
    requires basic.start + TextSize(program, |program|) <= MEMORY
    requires forall i :: 0 <= i < |program| ==>
               && |StmtBytes(program, i)| < 0xff && Statement(WriteLine(|program|, program[i])) && texts[i] == LineText(program, i)
               && IsText(texts[i]) && LexedSize(texts[i]) < BUFFER_SIZE
    modifies basic.mem, basic`endPtr, basic`lastInserted, basic`addrs, basic`recs
    ensures error == 0 && basic.Valid() && |basic.addrs| == |program| && basic.recs == Encode(basic.addrs, program)
    ensures Proper(Begin(program, basic.registers[..], basic.mem[..], basic.endPtr, basic.out))
  {
    hide LexAll, LexedSize, StmtBytes, LineText, ValidLines, WritableLine, TextSize;
    var statement := new Byte[BUFFER_SIZE](_ => 0);
    LoadedNone(basic, program);
    for i := 0 to |texts|
      invariant Loaded(basic, program, i)
    {
      ghost var ts := LineTokens(program, i);
      TextGrows(program, i + 1, |program|);
      TextNext(program, i);
      error := ProcessLine(basic, statement, texts[i], program[i].no, ts);
      if error != 0 { return error; }
    }
    LoadedAll(basic, program);
    basic.CanBegin(program);
    return 0;
  }

  lemma LoadedNone(basic: Interpreter, program: seq<Line>)
    requires basic.Valid() && basic.addrs == [] && basic.endPtr == basic.start && ValidLines(program)
    ensures Loaded(basic, program, 0)
  {
  }

  lemma TextNext(program: seq<Line>, i: nat)
    requires ValidLines(program) && i < |program|
    ensures TextSize(program, i + 1) == TextSize(program, i) + PROG_HDR_SIZE + |StmtBytes(program, i)| + 1
  {
  }
}
