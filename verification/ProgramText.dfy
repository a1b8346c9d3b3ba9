/** Program text in memory: line records linked both ways, and the tokens of statements. */
module ProgramTexts {
  import opened Bytes
  import opened Expressions
  import opened Statements
  import opened Programs

  const PROG_HDR_SIZE := 6

  // ----- Records -----

  /** A line as stored: its number and its statement with the terminator. */
  datatype Rec = Rec(no: Int16, body: seq<Byte>)

  function RecNos(recs: seq<Rec>): (nos: seq<Int16>)
    ensures |nos| == |recs| && forall i :: 0 <= i < |recs| ==> nos[i] == recs[i].no
  {
    seq(|recs|, i requires 0 <= i < |recs| => recs[i].no)
  }

  /** The address of a line; 0, the null pointer, for no line. */
  function PtrTo(addrs: seq<Word>, i: Option<nat>): Word {
    if i.Some? && i.value < |addrs| then addrs[i.value] else 0
  }

  function RecEnd(addrs: seq<Word>, recs: seq<Rec>, i: nat): nat
    requires i < |addrs| == |recs|
  {
    addrs[i] + PROG_HDR_SIZE + |recs[i].body|
  }

  /** The records lie one after the other, the first at the start of the program memory. */
  ghost predicate Placed(start: Word, addrs: seq<Word>, recs: seq<Rec>, end: nat) {
    && |addrs| == |recs| && 0 < start <= end <= MEMORY
    && (addrs != [] ==> addrs[0] == start)
    && (forall i :: 0 <= i < |addrs| ==> start <= addrs[i] && RecEnd(addrs, recs, i) <= end)
    && (forall i, j :: 0 <= i < j < |addrs| ==> RecEnd(addrs, recs, i) <= addrs[j])
  }

  /** Record `i` is in memory, linked to its neighbours. */
  ghost predicate RecHere(mem: seq<Byte>, addrs: seq<Word>, recs: seq<Rec>, i: nat)
    requires i < |addrs| == |recs|
  {
    && RecEnd(addrs, recs, i) <= |mem|
    && var a: nat := addrs[i];
       && WordAt(mem, a) == Pattern(recs[i].no)
       && WordAt(mem, a + 2) == (if i == 0 then 0 else addrs[i - 1])
       && WordAt(mem, a + 4) == (if i + 1 < |addrs| then addrs[i + 1] else 0)
       && Here(mem, a + PROG_HDR_SIZE, recs[i].body)
  }

  ghost predicate Laid(mem: seq<Byte>, addrs: seq<Word>, recs: seq<Rec>) {
    |addrs| == |recs| && forall i :: 0 <= i < |addrs| ==> RecHere(mem, addrs, recs, i)
  }

  lemma RecFrame(mem: seq<Byte>, mem': seq<Byte>, addrs: seq<Word>, recs: seq<Rec>, i: nat)
    requires i < |addrs| == |recs| && RecHere(mem, addrs, recs, i) && |mem'| == |mem|
    requires forall a :: addrs[i] <= a < RecEnd(addrs, recs, i) ==> mem'[a] == mem[a]
    ensures RecHere(mem', addrs, recs, i)
  {
    hide Here;
    HereFrame(mem, mem', addrs[i] + PROG_HDR_SIZE, recs[i].body);
  }

  /** Records stay where the text stays. */
  lemma LaidFrame(mem: seq<Byte>, mem': seq<Byte>, start: Word, addrs: seq<Word>, recs: seq<Rec>, end: nat)
    requires Placed(start, addrs, recs, end) && Laid(mem, addrs, recs) && |mem| == |mem'| == MEMORY
    requires forall a :: 0 <= a < MEMORY && a in TextOf(addrs, recs) ==> mem'[a] == mem[a]
    ensures Laid(mem', addrs, recs)
  {
    hide TextOf, RecHere;
    forall i | 0 <= i < |addrs| ensures RecHere(mem', addrs, recs, i) {
      forall a | addrs[i] <= a < RecEnd(addrs, recs, i) ensures mem'[a] == mem[a] {
        TextAt(start, addrs, recs, end, i, a);
      }
      RecFrame(mem, mem', addrs, recs, i);
    }
  }

  /** `mem'` is `mem` with a record written at `end` and linked behind the last one. */
  ghost predicate Inserted(mem: seq<Byte>, mem': seq<Byte>, addrs: seq<Word>, end: nat, rec: Rec) {
    var last, after := |addrs| - 1, end + PROG_HDR_SIZE + |rec.body|;
    && |mem'| == |mem| && after <= |mem|
    && (addrs != [] ==> addrs[last] + PROG_HDR_SIZE <= end)
    && WordAt(mem', end) == Pattern(rec.no)
    && WordAt(mem', end + 2) == (if addrs == [] then 0 else addrs[last])
    && WordAt(mem', end + 4) == 0
    && Here(mem', end + PROG_HDR_SIZE, rec.body)
    && (addrs != [] ==> var a: nat := addrs[last]; WordAt(mem', a + 4) == end)
    && forall a :: 0 <= a < |mem| && !(end <= a < after) && !(addrs != [] && addrs[last] + 4 <= a < addrs[last] + 6) ==>
         mem'[a] == mem[a]
  }

  /** Insertion keeps every record with its statement intact, and links the new one behind them. */
  lemma InsertKeeps(mem: seq<Byte>, mem': seq<Byte>, start: Word, addrs: seq<Word>, recs: seq<Rec>, end: Word, rec: Rec)
    requires |mem| == MEMORY && Placed(start, addrs, recs, end) && Laid(mem, addrs, recs)
    requires Inserted(mem, mem', addrs, end, rec)
    ensures Laid(mem', addrs + [end], recs + [rec])
  {
    hide Here, Pattern, ToWord;
    var n, addrs', recs' := |addrs|, addrs + [end], recs + [rec];
    forall i | 0 <= i <= n ensures RecHere(mem', addrs', recs', i) {
      if i < n {
        assert RecHere(mem, addrs, recs, i);
        OldRecHere(mem, mem', start, addrs, recs, end, rec, i);
      }
    }
  }

  lemma InsertPlaced(start: Word, addrs: seq<Word>, recs: seq<Rec>, end: Word, rec: Rec)
    requires Placed(start, addrs, recs, end) && end + PROG_HDR_SIZE + |rec.body| <= MEMORY
    requires addrs == [] ==> end == start
    ensures Placed(start, addrs + [end], recs + [rec], end + PROG_HDR_SIZE + |rec.body|)
  {
    var addrs', recs' := addrs + [end], recs + [rec];
    forall i, j | 0 <= i < j < |addrs'| ensures RecEnd(addrs', recs', i) <= addrs'[j] {
      assert RecEnd(addrs, recs, i) <= end;
    }
  }

  lemma OldRecHere(mem: seq<Byte>, mem': seq<Byte>, start: Word, addrs: seq<Word>, recs: seq<Rec>, end: Word, rec: Rec, i: nat)
    requires |mem| == MEMORY && Placed(start, addrs, recs, end) && i < |addrs| && RecHere(mem, addrs, recs, i)
    requires Inserted(mem, mem', addrs, end, rec)
    ensures RecHere(mem', addrs + [end], recs + [rec], i)
  {
    hide Pattern, ToWord, Here;
    var a, last := addrs[i], |addrs| - 1;
    assert RecEnd(addrs, recs, i) <= end && (i < last ==> RecEnd(addrs, recs, i) <= addrs[last]);
    assert forall k :: a <= k < RecEnd(addrs, recs, i) && !(i == last && a + 4 <= k < a + 6) ==> mem'[k] == mem[k];
    HereFrame(mem, mem', a + PROG_HDR_SIZE, recs[i].body);
  }

  /** The line `k` links further on, and `k` links back. */
  function FollowNext(mem: seq<Byte>, a: Word, k: nat): Word
    decreases k
  {
    if k == 0 then a else if a == 0 || a + PROG_HDR_SIZE > |mem| then 0
    else var link: nat := a + 4; FollowNext(mem, WordAt(mem, link), k - 1)
  }

  function FollowPrev(mem: seq<Byte>, a: Word, k: nat): Word
    decreases k
  {
    if k == 0 then a else if a == 0 || a + PROG_HDR_SIZE > |mem| then 0
    else var link: nat := a + 2; FollowPrev(mem, WordAt(mem, link), k - 1)
  }

  lemma LinkEnds(mem: seq<Byte>, k: nat)
    ensures FollowNext(mem, 0, k) == 0 && FollowPrev(mem, 0, k) == 0
  {
  }

  /** Following the links visits the lines in the order of their insertion and then ends; the links
      back are the inverse. */
  lemma {:induction false} LinksList(mem: seq<Byte>, start: Word, addrs: seq<Word>, recs: seq<Rec>, end: nat, i: nat, k: nat)
    requires Placed(start, addrs, recs, end) && Laid(mem, addrs, recs) && i < |addrs|
    ensures FollowNext(mem, addrs[i], k) == if i + k < |addrs| then addrs[i + k] else 0
    ensures FollowPrev(mem, addrs[i], k) == if k <= i then addrs[i - k] else 0
    decreases k
  {
    assert RecHere(mem, addrs, recs, i);
    hide Here, ToWord, RecHere, Laid;
    LinkEnds(mem, k);
    if 0 < k {
      LinkEnds(mem, k - 1);
      if i + 1 < |addrs| {
        LinksList(mem, start, addrs, recs, end, i + 1, k - 1);
      }
      if 0 < i {
        LinksList(mem, start, addrs, recs, end, i - 1, k - 1);
      }
    }
  }

  // ----- The text -----

  ghost predicate InText(addrs: seq<Word>, recs: seq<Rec>, a: int)
    requires |addrs| == |recs|
  {
    exists i :: 0 <= i < |addrs| && addrs[i] <= a < RecEnd(addrs, recs, i)
  }

  /** The addresses that the program text takes. */
  ghost function TextOf(addrs: seq<Word>, recs: seq<Rec>): (text: set<int>)
    requires |addrs| == |recs|
  {
    set a | 0 <= a < MEMORY && InText(addrs, recs, a)
  }

  lemma TextAt(start: Word, addrs: seq<Word>, recs: seq<Rec>, end: nat, i: nat, a: int)
    requires Placed(start, addrs, recs, end) && i < |addrs| && addrs[i] <= a < RecEnd(addrs, recs, i)
    ensures a in TextOf(addrs, recs)
  {
    assert InText(addrs, recs, a);
  }

  lemma TextBelowEnd(start: Word, addrs: seq<Word>, recs: seq<Rec>, end: nat)
    requires Placed(start, addrs, recs, end)
    ensures forall a :: a in TextOf(addrs, recs) ==> start <= a < end
  {
  }

  // ----- Statements -----

  function ComparisonCode(comparison: Comparison): Byte {
    match comparison
    case Equal => OP_EQUAL
    case Less => OP_LT
    case Greater => OP_GT
    case AtMost => OP_LTEQ
    case AtLeast => OP_GTEQ
  }

  function NumberBytes(x: Int16): (r: seq<Byte>)
    ensures |r| == NUMERIC_SIZE
  {
    [TOK_NUMERIC] + WordBytes(Pattern(x))
  }

  function JumpBytes(code: Byte, operand: Word): (r: seq<Byte>)
    ensures |r| == 5
  {
    [TOK_KEYWORD, code, TOK_NUMERIC] + WordBytes(operand)
  }

  function ItemBytes(item: PrintItem): seq<Byte>
    requires ValidItem(item)
  {
    match item
    case Text(bytes) => [TOK_STRING, |bytes| + 1] + (bytes + [0])
    case Number(e) => ExprTokens(e)
  }

  function ItemsBytes(items: seq<PrintItem>): seq<Byte>
    requires items != [] && ValidItems(items)
  {
    if |items| == 1 then ItemBytes(items[0]) else ItemBytes(items[0]) + ([TOK_SEPARATOR] + ItemsBytes(items[1..]))
  }

  /** The tokens of a statement; rewritten jumps hold the addresses of their lines. */
  function StmtTokens(addrs: seq<Word>, s: Stmt): (r: seq<Byte>)
    requires ValidStmt(|addrs|, s)
    ensures 2 <= |r|
  {
    match s
    case Finish => [TOK_KEYWORD, KEYWORD_END]
    case Remark(text) => [TOK_REMARK, |text| + 1] + (text + [0])
    case Print(items) => [TOK_KEYWORD, KEYWORD_PRINT] + ItemsBytes(items)
    case Let(target, value) => OperandTokens(target) + ([TOK_OPERATOR, OP_EQUAL] + ExprTokens(value))
    case Dim(v, size) =>
      [TOK_KEYWORD, KEYWORD_DIM] + (VarTokens(v) + ([TOK_OPERATOR, OP_LPAREN] + (NumberBytes(size) + [TOK_OPERATOR, OP_RPAREN])))
    case If(left, comparison, right, body) =>
      [TOK_KEYWORD, KEYWORD_IF]
      + (ExprTokens(left) + ([TOK_OPERATOR, ComparisonCode(comparison)]
      + (ExprTokens(right) + ([TOK_KEYWORD, KEYWORD_THEN] + StmtTokens(addrs, body)))))
    case Goto(lineno) => JumpBytes(KEYWORD_GOTO, Pattern(lineno))
    case Gosub(lineno) => JumpBytes(KEYWORD_GOSUB, Pattern(lineno))
    case Jumpto(line) => JumpBytes(KEYWORD_JUMPTO, PtrTo(addrs, line))
    case Jumpsub(line) => JumpBytes(KEYWORD_JUMPSUB, PtrTo(addrs, line))
    case Return => [TOK_KEYWORD, KEYWORD_RETURN]
    case For(v, start, limit) =>
      [TOK_KEYWORD, KEYWORD_FOR]
      + (VarTokens(v) + ([TOK_OPERATOR, OP_EQUAL] + (NumberBytes(start) + ([TOK_KEYWORD, KEYWORD_TO] + NumberBytes(limit)))))
    case Next(v) => [TOK_KEYWORD, KEYWORD_NEXT] + VarTokens(v)
  }

  function KeywordOf(s: Stmt): Byte {
    match s
    case Print(_) => KEYWORD_PRINT
    case Finish => KEYWORD_END
    case Goto(_) => KEYWORD_GOTO
    case For(_, _, _) => KEYWORD_FOR
    case Next(_) => KEYWORD_NEXT
    case Gosub(_) => KEYWORD_GOSUB
    case Return => KEYWORD_RETURN
    case Dim(_, _) => KEYWORD_DIM
    case If(_, _, _, _) => KEYWORD_IF
    case Jumpto(_) => KEYWORD_JUMPTO
    case Jumpsub(_) => KEYWORD_JUMPSUB
    case Remark(_) => 0
    case Let(_, _) => 0
  }

  lemma StmtHead(addrs: seq<Word>, s: Stmt)
    requires ValidStmt(|addrs|, s)
    ensures !s.Remark? && !s.Let? ==> StmtTokens(addrs, s)[0] == TOK_KEYWORD && StmtTokens(addrs, s)[1] == KeywordOf(s)
    ensures s.Remark? ==> StmtTokens(addrs, s)[0] == TOK_REMARK
    ensures s.Let? ==> StmtTokens(addrs, s)[0] == TOK_VARIABLE || StmtTokens(addrs, s)[0] == TOK_REGISTER
  {
    hide ExprTokens, ItemsBytes, NumberBytes, ValidExpr;
  }

  /** The part of an IF up to its statement. */
  function IfPrefix(s: Stmt): seq<Byte>
    requires s.If? && ValidExpr(s.left) && ValidExpr(s.right)
  {
    [TOK_KEYWORD, KEYWORD_IF] + (ExprTokens(s.left) + ([TOK_OPERATOR, ComparisonCode(s.comparison)]
    + (ExprTokens(s.right) + [TOK_KEYWORD, KEYWORD_THEN])))
  }

  lemma IfTokens(addrs: seq<Word>, s: Stmt)
    requires s.If? && ValidStmt(|addrs|, s)
    ensures StmtTokens(addrs, s) == IfPrefix(s) + StmtTokens(addrs, s.body)
  {
    hide ExprTokens, ValidExpr;
    var a, b, o, t, body := ExprTokens(s.left), ExprTokens(s.right), [TOK_OPERATOR, ComparisonCode(s.comparison)],
                            [TOK_KEYWORD, KEYWORD_THEN], StmtTokens(addrs, s.body);
    Assoc([TOK_KEYWORD, KEYWORD_IF], a + (o + (b + t)), body);
    Assoc(a, o + (b + t), body);
    Assoc(o, b + t, body);
    Assoc(b, t, body);
  }

  lemma Assoc(a: seq<Byte>, b: seq<Byte>, c: seq<Byte>)
    ensures (a + b) + c == a + (b + c)
  {
  }

  /** Rewriting keeps the size of a statement, and what is not a jump. */
  lemma {:induction false} PatchedSize(addrs: seq<Word>, nos: seq<Int16>, cur: nat, s: Stmt, s': Stmt)
    requires ValidStmt(|addrs|, s) && ValidStmt(|addrs|, s') && cur < |nos| && Patched(nos, cur, s, s')
    ensures |StmtTokens(addrs, s')| == |StmtTokens(addrs, s)|
    ensures Innermost(s).For? ==> Innermost(s') == Innermost(s)
  {
    hide ValidExpr, ExprTokens, OperandTokens, VarTokens, ItemsBytes, JumpBytes, NumberBytes, Search;
    if s.If? {
      PatchedSize(addrs, nos, cur, s.body, s'.body);
    }
  }

  function Encode(addrs: seq<Word>, lines: seq<Line>): (recs: seq<Rec>)
    requires |addrs| == |lines| && ValidLines(lines)
    ensures |recs| == |lines|
    ensures forall i :: 0 <= i < |lines| ==> recs[i] == Rec(lines[i].no, StmtTokens(addrs, lines[i].stmt) + [TOK_TERMINATOR])
  {
    seq(|lines|, i requires 0 <= i < |lines| => Rec(lines[i].no, StmtTokens(addrs, lines[i].stmt) + [TOK_TERMINATOR]))
  }

  // ----- The return stack -----

  /** An entry of the return stack: addresses of a line and of a variable token, 0 for none. */
  datatype Pending = Pending(line: Word, vartoken: Word)

  /** `p` is where the variable of the FOR at line `k` lies. */
  ghost predicate ForVarAt(addrs: seq<Word>, lines: seq<Line>, k: nat, v: Var, p: int)
    requires |addrs| == |lines| && ValidLines(lines)
  {
    && k < |lines|
    && var inner := Innermost(lines[k].stmt);
       && inner.For? && inner.v == v && ValidVar(v)
       && p == addrs[k] + PROG_HDR_SIZE + |StmtTokens(addrs, lines[k].stmt)| - ForTail(inner)
  }

  /** How far before the end of its line the variable of a FOR lies. */
  function ForTail(s: Stmt): nat
    requires s.For? && ValidVar(s.v)
  {
    |VarTokens(s.v)| + 10
  }

  ghost predicate VarTokenShown(addrs: seq<Word>, lines: seq<Line>, p: Word, loop: Option<Var>)
    requires |addrs| == |lines| && ValidLines(lines)
  {
    match loop
    case None => p == 0
    case Some(v) => ValidVar(v) && p != 0 && exists k :: ForVarAt(addrs, lines, k, v, p)
  }

  ghost predicate StackShown(addrs: seq<Word>, lines: seq<Line>, entries: seq<Pending>, stack: seq<Frame>)
    requires |addrs| == |lines| && ValidLines(lines)
  {
    && |entries| == |stack|
    && forall i :: 0 <= i < |stack| ==>
         && stack[i].line < |addrs| && entries[i].line == addrs[stack[i].line]
         && VarTokenShown(addrs, lines, entries[i].vartoken, stack[i].loop)
  }

  lemma {:induction false} InnermostHere(mem: seq<Byte>, addrs: seq<Word>, p: nat, s: Stmt)
    requires ValidStmt(|addrs|, s) && Here(mem, p, StmtTokens(addrs, s))
    ensures ValidStmt(|addrs|, Innermost(s)) && |StmtTokens(addrs, Innermost(s))| <= |StmtTokens(addrs, s)|
    ensures Here(mem, p + |StmtTokens(addrs, s)| - |StmtTokens(addrs, Innermost(s))|, StmtTokens(addrs, Innermost(s)))
    decreases s
  {
    hide Here, ExprTokens, ValidExpr, StmtTokens;
    if s.If? {
      var q := BodyHere(mem, addrs, p, s);
      InnermostHere(mem, addrs, q, s.body);
    }
  }

  /** The parts of an IF. */
  lemma BodyHere(mem: seq<Byte>, addrs: seq<Word>, p: nat, s: Stmt) returns (q: nat)
    requires ValidStmt(|addrs|, s) && s.If? && Here(mem, p, StmtTokens(addrs, s))
    ensures var a := p + 2 + |ExprTokens(s.left)|;
            var b := a + 2 + |ExprTokens(s.right)|;
            && q == b + 2 && p + 2 <= a && a + 2 <= b && q + |StmtTokens(addrs, s.body)| == p + |StmtTokens(addrs, s)|
            && Here(mem, p, [TOK_KEYWORD, KEYWORD_IF])
            && Here(mem, p + 2, ExprTokens(s.left)) && Here(mem, a, [TOK_OPERATOR, ComparisonCode(s.comparison)])
            && Here(mem, a + 2, ExprTokens(s.right)) && Here(mem, b, [TOK_KEYWORD, KEYWORD_THEN])
            && Here(mem, q, StmtTokens(addrs, s.body))
  {
    hide Here, ExprTokens, ValidExpr;
    var left, right, body := ExprTokens(s.left), ExprTokens(s.right), StmtTokens(addrs, s.body);
    var op, th := [TOK_OPERATOR, ComparisonCode(s.comparison)], [TOK_KEYWORD, KEYWORD_THEN];
    HereSplit(mem, p, [TOK_KEYWORD, KEYWORD_IF], left + (op + (right + (th + body))));
    HereSplit(mem, p + 2, left, op + (right + (th + body)));
    var a := p + 2 + |left|;
    HereSplit(mem, a, op, right + (th + body));
    HereSplit(mem, a + 2, right, th + body);
    HereSplit(mem, a + 2 + |right|, th, body);
    return a + 2 + |right| + 2;
  }

  /** The parts of a FOR. */
  lemma ForHere(mem: seq<Byte>, p: nat, v: Var, start: Int16, limit: Int16)
    requires ValidVar(v) && Here(mem, p, StmtTokens([], For(v, start, limit)))
    ensures var q := p + 2 + |VarTokens(v)|;
            && p + |StmtTokens([], For(v, start, limit))| == q + 10
            && Here(mem, p, [TOK_KEYWORD, KEYWORD_FOR]) && Here(mem, p + 2, VarTokens(v))
            && Here(mem, q, [TOK_OPERATOR, OP_EQUAL]) && Here(mem, q + 2, NumberBytes(start))
            && Here(mem, q + 5, [TOK_KEYWORD, KEYWORD_TO]) && Here(mem, q + 7, NumberBytes(limit))
  {
    hide Here, VarTokens, NumberBytes;
    var q, equal, to := p + 2 + |VarTokens(v)|, [TOK_OPERATOR, OP_EQUAL], [TOK_KEYWORD, KEYWORD_TO];
    HereSplit(mem, p, [TOK_KEYWORD, KEYWORD_FOR],
              VarTokens(v) + (equal + (NumberBytes(start) + (to + NumberBytes(limit)))));
    HereSplit(mem, p + 2, VarTokens(v), equal + (NumberBytes(start) + (to + NumberBytes(limit))));
    HereSplit(mem, q, equal, NumberBytes(start) + (to + NumberBytes(limit)));
    HereSplit(mem, q + 2, NumberBytes(start), to + NumberBytes(limit));
    HereSplit(mem, q + 5, to, NumberBytes(limit));
  }

  /** The variable token that a frame points to is in memory. */
  lemma VarTokenHere(mem: seq<Byte>, addrs: seq<Word>, lines: seq<Line>, p: Word, v: Var)
    requires |addrs| == |lines| && ValidLines(lines) && Laid(mem, addrs, Encode(addrs, lines))
    requires VarTokenShown(addrs, lines, p, Some(v))
    ensures Here(mem, p, VarTokens(v))
  {
    hide Here, StmtTokens;
    var k: nat :| ForVarAt(addrs, lines, k, v, p);
    var stmt, a := lines[k].stmt, addrs[k] + PROG_HDR_SIZE;
    var inner := Innermost(stmt);
    assert RecHere(mem, addrs, Encode(addrs, lines), k);
    HereSplit(mem, a, StmtTokens(addrs, stmt), [TOK_TERMINATOR]);
    InnermostHere(mem, addrs, a, stmt);
    ForBytesAlike(addrs, inner);
    ForHere(mem, a + |StmtTokens(addrs, stmt)| - |StmtTokens(addrs, inner)|, v, inner.start, inner.limit);
  }

  lemma ForBytesAlike(addrs: seq<Word>, s: Stmt)
    requires s.For? && ValidVar(s.v)
    ensures StmtTokens(addrs, s) == StmtTokens([], s) && |StmtTokens(addrs, s)| == ForTail(s) + 2
  {
  }

  lemma StackPushed(addrs: seq<Word>, lines: seq<Line>, entries: seq<Pending>, stack: seq<Frame>, top: Pending, frame: Frame)
    requires |addrs| == |lines| && ValidLines(lines) && StackShown(addrs, lines, entries, stack)
    requires frame.line < |addrs| && top.line == addrs[frame.line] && VarTokenShown(addrs, lines, top.vartoken, frame.loop)
    ensures StackShown(addrs, lines, entries + [top], stack + [frame])
  {
    hide VarTokenShown;
  }

  lemma StackPopped(addrs: seq<Word>, lines: seq<Line>, entries: seq<Pending>, stack: seq<Frame>)
    requires |addrs| == |lines| && ValidLines(lines) && StackShown(addrs, lines, entries, stack)
    ensures |entries| == |stack|
    ensures stack != [] ==>
              var n := |stack| - 1;
              && StackShown(addrs, lines, entries[..n], stack[..n])
              && stack[n].line < |addrs| && entries[n].line == addrs[stack[n].line]
              && VarTokenShown(addrs, lines, entries[n].vartoken, stack[n].loop)
  {
    hide VarTokenShown;
  }

  lemma PlacedGrows(start: Word, addrs: seq<Word>, recs: seq<Rec>, end: nat, end': nat)
    requires Placed(start, addrs, recs, end) && end <= end' <= MEMORY
    ensures Placed(start, addrs, recs, end')
  {
  }

  /** The parts of a DIM. */
  lemma DimHere(mem: seq<Byte>, p: nat, v: Var, size: Int16)
    requires ValidVar(v) && Here(mem, p, StmtTokens([], Dim(v, size)))
    ensures Here(mem, p + 2, VarTokens(v)) && Here(mem, p + 2 + |VarTokens(v)| + 2, NumberBytes(size))
  {
    hide Here, VarTokens, NumberBytes;
    var left, right, q := [TOK_OPERATOR, OP_LPAREN], [TOK_OPERATOR, OP_RPAREN], p + 2 + |VarTokens(v)|;
    HereSplit(mem, p, [TOK_KEYWORD, KEYWORD_DIM], VarTokens(v) + (left + (NumberBytes(size) + right)));
    HereSplit(mem, p + 2, VarTokens(v), left + (NumberBytes(size) + right));
    HereSplit(mem, q, left, NumberBytes(size) + right);
    HereSplit(mem, q + 2, NumberBytes(size), right);
  }

  lemma DimBytesAlike(addrs: seq<Word>, s: Stmt)
    requires s.Dim? && ValidVar(s.v)
    ensures StmtTokens(addrs, s) == StmtTokens([], s)
  {
  }

  // ----- Rewriting a line -----

  /** What running a statement at `p` leaves behind, besides the state: its tokens, perhaps rewritten,
      and no other change to the program text. */
  ghost predicate TextAfter(text: set<int>, mem: seq<Byte>, mem': seq<Byte>, p: nat, bs: seq<Byte>) {
    && |mem'| == |mem| == MEMORY && Here(mem', p, bs)
    && forall a :: 0 <= a < MEMORY && a in text && !(p <= a < p + |bs|) ==> mem'[a] == mem[a]
  }

  ghost predicate SameSizes(recs: seq<Rec>, recs': seq<Rec>) {
    |recs| == |recs'| && forall i :: 0 <= i < |recs| ==> |recs[i].body| == |recs'[i].body| && recs[i].no == recs'[i].no
  }

  lemma PlacedAlike(start: Word, addrs: seq<Word>, recs: seq<Rec>, recs': seq<Rec>, end: nat)
    requires Placed(start, addrs, recs, end) && SameSizes(recs, recs')
    ensures Placed(start, addrs, recs', end) && TextOf(addrs, recs') == TextOf(addrs, recs)
  {
    forall i, j | 0 <= i < j < |addrs| ensures RecEnd(addrs, recs', i) <= addrs[j] {
      assert RecEnd(addrs, recs, i) <= addrs[j];
    }
    forall i | 0 <= i < |addrs| ensures start <= addrs[i] && RecEnd(addrs, recs', i) == RecEnd(addrs, recs, i) {
    }
    forall a | 0 <= a < MEMORY ensures InText(addrs, recs', a) <==> InText(addrs, recs, a) {
    }
  }

  /** A line with its statement rewritten. */
  lemma PatchedSizes(addrs: seq<Word>, lines: seq<Line>, i: nat, s: Stmt)
    requires |addrs| == |lines| && ValidLines(lines) && i < |lines| && ValidStmt(|lines|, s)
    requires Patched(Nos(lines), i, lines[i].stmt, s)
    ensures ValidLines(SetStmt(lines, i, s)) && SameSizes(Encode(addrs, lines), Encode(addrs, SetStmt(lines, i, s)))
    ensures forall j :: 0 <= j < |lines| ==> |StmtTokens(addrs, SetStmt(lines, i, s)[j].stmt)| == |StmtTokens(addrs, lines[j].stmt)|
  {
    hide StmtTokens, Patched, ValidStmt;
    PatchedSize(addrs, Nos(lines), i, lines[i].stmt, s);
  }

  /** The records after line `i` was rewritten in place: its links and the other lines are untouched. */
  lemma PatchLaid(mem: seq<Byte>, mem': seq<Byte>, start: Word, addrs: seq<Word>, lines: seq<Line>, i: nat, s: Stmt, end: nat)
    requires |addrs| == |lines| && ValidLines(lines) && i < |lines| && ValidStmt(|lines|, s)
    requires Patched(Nos(lines), i, lines[i].stmt, s)
    requires Placed(start, addrs, Encode(addrs, lines), end) && Laid(mem, addrs, Encode(addrs, lines))
    requires TextAfter(TextOf(addrs, Encode(addrs, lines)), mem, mem', addrs[i] + PROG_HDR_SIZE, StmtTokens(addrs, s) + [TOK_TERMINATOR])
    ensures ValidLines(SetStmt(lines, i, s)) && Laid(mem', addrs, Encode(addrs, SetStmt(lines, i, s)))
  {
    hide Here, StmtTokens, TextOf, Patched, ValidStmt, RecHere, TextAfter;
    PatchedSizes(addrs, lines, i, s);
    var recs, recs', bs := Encode(addrs, lines), Encode(addrs, SetStmt(lines, i, s)), StmtTokens(addrs, s) + [TOK_TERMINATOR];
    forall j | 0 <= j < |addrs| ensures RecHere(mem', addrs, recs', j) {
      if j == i {
        RewrittenRec(mem, mem', start, addrs, recs, end, i, bs);
        assert recs'[i] == Rec(recs[i].no, bs);
      } else {
        OtherRec(mem, mem', start, addrs, recs, end, i, j, bs);
        assert recs'[j] == recs[j];
      }
      RecAlike(mem', addrs, recs[j := recs'[j]], recs', j);
    }
  }

  lemma RecAlike(mem: seq<Byte>, addrs: seq<Word>, recs: seq<Rec>, recs': seq<Rec>, j: nat)
    requires j < |addrs| == |recs| == |recs'| && recs'[j] == recs[j]
    ensures RecHere(mem, addrs, recs, j) ==> RecHere(mem, addrs, recs', j)
  {
  }

  lemma RewrittenRec(mem: seq<Byte>, mem': seq<Byte>, start: Word, addrs: seq<Word>, recs: seq<Rec>, end: nat, i: nat, bs: seq<Byte>)
    requires Placed(start, addrs, recs, end) && i < |addrs| && RecHere(mem, addrs, recs, i) && |bs| == |recs[i].body|
    requires TextAfter(TextOf(addrs, recs), mem, mem', addrs[i] + PROG_HDR_SIZE, bs)
    ensures RecHere(mem', addrs, recs[i := Rec(recs[i].no, bs)], i)
  {
    hide Here, TextOf, Pattern, ToWord;
    forall a | addrs[i] <= a < RecEnd(addrs, recs, i) ensures a in TextOf(addrs, recs) {
      TextAt(start, addrs, recs, end, i, a);
    }
  }

  lemma OtherRec(mem: seq<Byte>, mem': seq<Byte>, start: Word, addrs: seq<Word>, recs: seq<Rec>, end: nat, i: nat, j: nat,
                 bs: seq<Byte>)
    requires Placed(start, addrs, recs, end) && i < |addrs| && j < |addrs| && i != j && RecHere(mem, addrs, recs, j)
    requires |bs| == |recs[i].body| && TextAfter(TextOf(addrs, recs), mem, mem', addrs[i] + PROG_HDR_SIZE, bs)
    ensures RecHere(mem', addrs, recs[j := recs[j]], j)
  {
    hide Here, TextOf, RecHere;
    forall a | addrs[j] <= a < RecEnd(addrs, recs, j) ensures a in TextOf(addrs, recs) {
      TextAt(start, addrs, recs, end, j, a);
    }
    Disjoint(start, addrs, recs, end, i, j);
    assert recs[j := recs[j]] == recs;
    RecFrame(mem, mem', addrs, recs, j);
  }

  lemma Disjoint(start: Word, addrs: seq<Word>, recs: seq<Rec>, end: nat, i: nat, j: nat)
    requires Placed(start, addrs, recs, end) && i < |addrs| && j < |addrs| && i != j
    ensures RecEnd(addrs, recs, i) <= addrs[j] || RecEnd(addrs, recs, j) <= addrs[i]
  {
  }

  /** Frames point to FORs, which rewriting leaves alone. */
  lemma PatchStack(addrs: seq<Word>, lines: seq<Line>, i: nat, s: Stmt, entries: seq<Pending>, stack: seq<Frame>)
    requires |addrs| == |lines| && ValidLines(lines) && i < |lines| && ValidStmt(|lines|, s)
    requires Patched(Nos(lines), i, lines[i].stmt, s) && StackShown(addrs, lines, entries, stack)
    ensures ValidLines(SetStmt(lines, i, s)) && StackShown(addrs, SetStmt(lines, i, s), entries, stack)
  {
    hide StmtTokens, ValidStmt, Patched, Innermost;
    PatchedSizes(addrs, lines, i, s);
    PatchedSize(addrs, Nos(lines), i, lines[i].stmt, s);
    var lines' := SetStmt(lines, i, s);
    forall k | 0 <= k < |stack| ensures VarTokenShown(addrs, lines', entries[k].vartoken, stack[k].loop) {
      var p, loop := entries[k].vartoken, stack[k].loop;
      assert VarTokenShown(addrs, lines, p, loop);
      if loop.Some? {
        var f: nat :| ForVarAt(addrs, lines, f, loop.value, p);
        assert ForVarAt(addrs, lines', f, loop.value, p);
      }
    }
  }
}
