/** The source text of BASIC statements and programs. */
module Sources {
  import opened Bytes
  import opened Expressions
  import opened Statements
  import opened Programs
  import opened Tokens
  import opened Lexing
  import opened ProgramTexts

  // ----- What can be written -----

  function Chars(bytes: seq<Byte>): (t: string)
    ensures |t| == |bytes|
  {
    seq(|bytes|, i requires 0 <= i < |bytes| => bytes[i] as char)
  }

  predicate WritableVar(v: Var) {
    ValidVar(v) && (v.Named? ==> Spellable(Name(Chars(v.name))))
  }

  predicate WritableOperand(x: Operand) {
    match x
    case Lit(value) => value >= 0
    case Scalar(v) => WritableVar(v)
    case Element(v, index) => WritableVar(v) && WritableExpr(index)
  }

  predicate WritableTail(t: Tail) {
    t.More? ==> WritableOperand(t.operand) && WritableTail(t.tail)
  }

  /** Numbers have no sign of their own, and names are names. */
  predicate WritableExpr(e: Expr) {
    WritableOperand(e.first) && WritableTail(e.rest)
  }

  predicate WritableItem(item: PrintItem) {
    match item
    case Text(bytes) => '"' !in Chars(bytes)
    case Number(e) => WritableExpr(e)
  }

  predicate WritableItems(items: seq<PrintItem>) {
    forall i :: 0 <= i < |items| ==> WritableItem(items[i])
  }

  /** Direct jumps cannot be written: GOTO and GOSUB become them. */
  predicate WritableStmt(s: Stmt) {
    match s
    case Remark(text) => 0 !in text
    case Print(items) => WritableItems(items)
    case Let(target, value) => WritableOperand(target) && WritableExpr(value)
    case Dim(v, size) => WritableVar(v) && size >= 0
    case If(left, _, right, body) => WritableExpr(left) && WritableExpr(right) && WritableStmt(body)
    case Goto(lineno) => lineno >= 0
    case Gosub(lineno) => lineno >= 0
    case Jumpto(_) => false
    case Jumpsub(_) => false
    case For(v, start, limit) => WritableVar(v) && start >= 0 && limit >= 0
    case Next(v) => WritableVar(v)
    case Finish => true
    case Return => true
  }

  // ----- How it is written -----

  function WriteVar(v: Var): seq<Spelling> {
    match v
    case Register(letter) => [Single(letter)]
    case Named(name) => [Name(Chars(name))]
  }

  function WriteOperand(x: Operand): seq<Spelling> {
    match x
    case Lit(value) => [Spelling.Number(value)]
    case Scalar(v) => WriteVar(v)
    case Element(v, index) => WriteVar(v) + ([Sign(OP_LPAREN)] + (WriteExpr(index) + [Sign(OP_RPAREN)]))
  }

  function WriteTail(t: Tail): seq<Spelling> {
    match t
    case End => []
    case More(op, x, t') => [Sign(Code(op))] + (WriteOperand(x) + WriteTail(t'))
  }

  function WriteExpr(e: Expr): seq<Spelling> {
    (if e.negated then [Sign(OP_MINUS)] else []) + (WriteOperand(e.first) + WriteTail(e.rest))
  }

  function WriteItem(item: PrintItem): seq<Spelling> {
    match item
    case Text(bytes) => [Quoted(Chars(bytes))]
    case Number(e) => WriteExpr(e)
  }

  function WriteItems(items: seq<PrintItem>): seq<Spelling>
    requires items != []
  {
    if |items| == 1 then WriteItem(items[0]) else WriteItem(items[0]) + ([Comma] + WriteItems(items[1..]))
  }

  function WriteStmt(n: nat, s: Stmt): seq<Spelling>
    requires ValidStmt(n, s)
  {
    match s
    case Finish => [Spelling.Word(KEYWORD_END)]
    case Remark(text) => [Rem(Chars(text))]
    case Print(items) => [Spelling.Word(KEYWORD_PRINT)] + WriteItems(items)
    case Let(target, value) => WriteOperand(target) + ([Sign(OP_EQUAL)] + WriteExpr(value))
    case Dim(v, size) =>
      [Spelling.Word(KEYWORD_DIM)] + (WriteVar(v) + ([Sign(OP_LPAREN)] + ([Spelling.Number(size)] + [Sign(OP_RPAREN)])))
    case If(left, comparison, right, body) =>
      [Spelling.Word(KEYWORD_IF)] + (WriteExpr(left) + ([Sign(ComparisonCode(comparison))]
      + (WriteExpr(right) + ([Spelling.Word(KEYWORD_THEN)] + WriteStmt(n, body)))))
    case Goto(lineno) => [Spelling.Word(KEYWORD_GOTO), Spelling.Number(lineno)]
    case Gosub(lineno) => [Spelling.Word(KEYWORD_GOSUB), Spelling.Number(lineno)]
    case Return => [Spelling.Word(KEYWORD_RETURN)]
    case For(v, start, limit) =>
      [Spelling.Word(KEYWORD_FOR)] + (WriteVar(v) + ([Sign(OP_EQUAL)] + ([Spelling.Number(start)] + ([Spelling.Word(KEYWORD_TO)]
      + [Spelling.Number(limit)]))))
    case Next(v) => [Spelling.Word(KEYWORD_NEXT)] + WriteVar(v)
    case Jumpto(_) => []
    case Jumpsub(_) => []
  }

  // ----- What it is read as -----

  /** The spellings can be read, wherever they stand, as these bytes. */
  ghost predicate Reads(xs: seq<Spelling>, bs: seq<Byte>) {
    AllSpellable(xs) && AllBytes(Meanings(xs)) == bs && forall i :: 0 <= i < |xs| ==> !xs[i].Rem?
  }

  /** The spellings are a statement, or the end of one, that is read as these bytes. */
  ghost predicate ReadsLast(xs: seq<Spelling>, bs: seq<Byte>) {
    Statement(xs) && AllSpellable(xs) && AllBytes(Meanings(xs)) == bs
  }

  lemma {:induction false} MeaningsJoin(xs: seq<Spelling>, ys: seq<Spelling>)
    requires AllSpellable(xs) && AllSpellable(ys)
    ensures AllSpellable(xs + ys) && Meanings(xs + ys) == Meanings(xs) + Meanings(ys)
  {
    hide Spellable, Meant, Meanings;
    SpellableJoin(xs, ys);
    if xs == [] {
      assert [] + ys == ys;
      MeaningsMore(xs);
    } else {
      MeaningsJoin(xs[1..], ys);
      MeaningsMore(xs);
      MeaningsMore(xs + ys);
      assert (xs + ys)[1..] == xs[1..] + ys;
    }
  }

  lemma MeaningsMore(xs: seq<Spelling>)
    requires AllSpellable(xs)
    ensures xs == [] ==> Meanings(xs) == []
    ensures xs != [] ==> AllSpellable(xs[1..]) && Meanings(xs) == [Meant(xs[0])] + Meanings(xs[1..])
  {
    hide Spellable, Meant;
  }

  lemma ReadsJoin(xs: seq<Spelling>, a: seq<Byte>, ys: seq<Spelling>, b: seq<Byte>)
    requires Reads(xs, a) && Reads(ys, b)
    ensures Reads(xs + ys, a + b)
  {
    hide Meanings, AllBytes, AllSpellable;
    MeaningsJoin(xs, ys);
    AllBytesJoin(Meanings(xs), Meanings(ys));
  }

  lemma ReadsOn(xs: seq<Spelling>, a: seq<Byte>, ys: seq<Spelling>, b: seq<Byte>)
    requires Reads(xs, a) && ReadsLast(ys, b)
    ensures ReadsLast(xs + ys, a + b)
  {
    hide Meanings, AllBytes, Spellable;
    MeaningsJoin(xs, ys);
    AllBytesJoin(Meanings(xs), Meanings(ys));
  }

  lemma ReadsAlone(xs: seq<Spelling>, bs: seq<Byte>)
    requires Reads(xs, bs) && xs != []
    ensures ReadsLast(xs, bs)
  {
    hide Meanings, AllBytes, Spellable;
  }

  lemma ReadsOne(x: Spelling, bs: seq<Byte>)
    requires Spellable(x) && !x.Rem? && TokBytes(Meant(x)) == bs
    ensures Reads([x], bs)
  {
    hide Meant, TokBytes;
    assert Meanings([x]) == [Meant(x)];
    assert AllBytes([Meant(x)]) == TokBytes(Meant(x)) + AllBytes([]);
  }

  lemma ReadsNone()
    ensures Reads([], [])
  {
  }

  lemma CharsText(bytes: seq<Byte>)
    ensures (forall i :: 0 <= i < |bytes| ==> bytes[i] != 0) ==> IsText(Chars(bytes)) && Codes(Chars(bytes)) == bytes
  {
  }

  lemma ReadsWord(code: Byte)
    requires 1 <= code <= KEYWORD_JUMPSUB
    ensures Reads([Spelling.Word(code)], [TOK_KEYWORD, code])
  {
    ReadsOne(Spelling.Word(code), [TOK_KEYWORD, code]);
  }

  lemma ReadsSign(code: Byte)
    requires code <= OP_MULT
    ensures Reads([Sign(code)], [TOK_OPERATOR, code])
  {
    ReadsOne(Sign(code), [TOK_OPERATOR, code]);
  }

  lemma ReadsNumber(value: Int16)
    requires value >= 0
    ensures Reads([Spelling.Number(value)], NumberBytes(value))
  {
    hide WordBytes, Pattern;
    ReadsOne(Spelling.Number(value), NumberBytes(value));
  }

  lemma ReadsVar(v: Var)
    requires WritableVar(v)
    ensures Reads(WriteVar(v), VarTokens(v))
  {
    match v {
      case Register(letter) => ReadsOne(Single(letter), [TOK_REGISTER, letter]);
      case Named(name) =>
        CharsText(name);
        ReadsOne(Name(Chars(name)), [TOK_VARIABLE, |name| + 1] + (name + [0]));
    }
  }

  lemma {:induction false} ReadsOperand(x: Operand)
    requires ValidOperand(x) && WritableOperand(x)
    ensures Reads(WriteOperand(x), OperandTokens(x))
    decreases x
  {
    hide Reads, VarTokens, ExprTokens, WriteVar, WriteExpr;
    match x {
      case Lit(value) => ReadsNumber(value);
      case Scalar(v) => ReadsVar(v);
      case Element(v, index) =>
        var left, right, inner := [TOK_OPERATOR, OP_LPAREN], [TOK_OPERATOR, OP_RPAREN], ExprTokens(index);
        ReadsVar(v);
        ReadsExpr(index);
        ReadsSign(OP_LPAREN);
        ReadsSign(OP_RPAREN);
        ReadsJoin(WriteExpr(index), inner, [Sign(OP_RPAREN)], right);
        ReadsJoin([Sign(OP_LPAREN)], left, WriteExpr(index) + [Sign(OP_RPAREN)], inner + right);
        ReadsJoin(WriteVar(v), VarTokens(v), [Sign(OP_LPAREN)] + (WriteExpr(index) + [Sign(OP_RPAREN)]), left + (inner + right));
        ElementBytes(v, index);
    }
  }

  lemma ElementBytes(v: Var, index: Expr)
    requires ValidVar(v) && ValidExpr(index)
    ensures OperandTokens(Element(v, index))
            == VarTokens(v) + ([TOK_OPERATOR, OP_LPAREN] + (ExprTokens(index) + [TOK_OPERATOR, OP_RPAREN]))
  {
    hide VarTokens, ExprTokens;
  }

  lemma {:induction false} ReadsTail(t: Tail)
    requires ValidTail(t) && WritableTail(t)
    ensures Reads(WriteTail(t), TailTokens(t))
    decreases t
  {
    hide Reads, OperandTokens, WriteOperand;
    match t {
      case End => ReadsNone();
      case More(op, x, t') =>
        ReadsSign(Code(op));
        ReadsOperand(x);
        ReadsTail(t');
        ReadsJoin(WriteOperand(x), OperandTokens(x), WriteTail(t'), TailTokens(t'));
        ReadsJoin([Sign(Code(op))], [TOK_OPERATOR, Code(op)], WriteOperand(x) + WriteTail(t'), OperandTokens(x) + TailTokens(t'));
        assert TailTokens(t) == [TOK_OPERATOR, Code(op)] + (OperandTokens(x) + TailTokens(t'));
    }
  }

  lemma {:induction false} ReadsExpr(e: Expr)
    requires ValidExpr(e) && WritableExpr(e)
    ensures Reads(WriteExpr(e), ExprTokens(e))
    decreases e
  {
    hide Reads, OperandTokens, TailTokens, WriteOperand, WriteTail;
    var a, b := OperandTokens(e.first), TailTokens(e.rest);
    ReadsOperand(e.first);
    ReadsTail(e.rest);
    ReadsJoin(WriteOperand(e.first), a, WriteTail(e.rest), b);
    if e.negated {
      ReadsSign(OP_MINUS);
      ReadsJoin([Sign(OP_MINUS)], [TOK_OPERATOR, OP_MINUS], WriteOperand(e.first) + WriteTail(e.rest), a + b);
      assert ExprTokens(e) == [TOK_OPERATOR, OP_MINUS] + (a + b);
    } else {
      ReadsNone();
      ReadsJoin([], [], WriteOperand(e.first) + WriteTail(e.rest), a + b);
      assert ExprTokens(e) == [] + (a + b);
    }
  }

  lemma ReadsItem(item: PrintItem)
    requires ValidItem(item) && WritableItem(item)
    ensures Reads(WriteItem(item), ItemBytes(item)) && WriteItem(item) != []
  {
    match item {
      case Text(bytes) =>
        CharsText(bytes);
        ReadsOne(Quoted(Chars(bytes)), [TOK_STRING, |bytes| + 1] + (bytes + [0]));
      case Number(e) =>
        ReadsExpr(e);
        WrittenExpr(e);
    }
  }

  lemma WrittenExpr(e: Expr)
    ensures WriteExpr(e) != []
  {
  }

  lemma {:induction false} ReadsItems(items: seq<PrintItem>)
    requires items != [] && ValidItems(items) && WritableItems(items)
    ensures Reads(WriteItems(items), ItemsBytes(items)) && WriteItems(items) != []
  {
    assert ValidItem(items[0]) && WritableItem(items[0]);
    hide Reads, WriteItem, ItemBytes, ValidItem, WritableItem;
    ReadsItem(items[0]);
    if |items| > 1 {
      ReadsItems(items[1..]);
      ReadsOne(Comma, [TOK_SEPARATOR]);
      ReadsJoin([Comma], [TOK_SEPARATOR], WriteItems(items[1..]), ItemsBytes(items[1..]));
      ReadsJoin(WriteItem(items[0]), ItemBytes(items[0]), [Comma] + WriteItems(items[1..]), [TOK_SEPARATOR] + ItemsBytes(items[1..]));
    }
  }

  /** What is written for a statement is read as its tokens. */
  lemma {:induction false} ReadsStmt(addrs: seq<Word>, s: Stmt)
    requires ValidStmt(|addrs|, s) && WritableStmt(s)
    ensures ReadsLast(WriteStmt(|addrs|, s), StmtTokens(addrs, s))
  {
    hide Reads, ReadsLast, ExprTokens, WriteExpr, NumberBytes, ItemsBytes, OperandTokens, VarTokens, WriteVar, WriteOperand, WriteItems,
         ValidExpr, ValidOperand, Chars;
    match s {
      case Finish => ReadsKeyword(KEYWORD_END);
      case Remark(text) => ReadsRemark(text);
      case Print(items) =>
        ReadsItems(items);
        ReadsWord(KEYWORD_PRINT);
        ReadsAlone(WriteItems(items), ItemsBytes(items));
        ReadsOn([Spelling.Word(KEYWORD_PRINT)], [TOK_KEYWORD, KEYWORD_PRINT], WriteItems(items), ItemsBytes(items));
      case Let(target, value) => ReadsLet(addrs, s);
      case Dim(v, size) => ReadsDim(addrs, s);
      case If(left, comparison, right, body) =>
        ReadsStmt(addrs, body);
        ReadsIf(left, comparison, right, WriteStmt(|addrs|, body), StmtTokens(addrs, body));
      case Goto(lineno) => ReadsJump(KEYWORD_GOTO, lineno);
      case Gosub(lineno) => ReadsJump(KEYWORD_GOSUB, lineno);
      case Return => ReadsKeyword(KEYWORD_RETURN);
      case For(v, start, limit) => ReadsFor(addrs, s);
      case Next(v) =>
        ReadsVar(v);
        ReadsWord(KEYWORD_NEXT);
        ReadsJoin([Spelling.Word(KEYWORD_NEXT)], [TOK_KEYWORD, KEYWORD_NEXT], WriteVar(v), VarTokens(v));
        ReadsAlone([Spelling.Word(KEYWORD_NEXT)] + WriteVar(v), [TOK_KEYWORD, KEYWORD_NEXT] + VarTokens(v));
    }
  }

  lemma ReadsKeyword(code: Byte)
    requires 1 <= code <= KEYWORD_JUMPSUB
    ensures ReadsLast([Spelling.Word(code)], [TOK_KEYWORD, code])
  {
    ReadsWord(code);
    ReadsAlone([Spelling.Word(code)], [TOK_KEYWORD, code]);
  }

  lemma ReadsRemark(text: seq<Byte>)
    requires 0 !in text && |text| < 0xff
    ensures ReadsLast([Rem(Chars(text))], [TOK_REMARK, |text| + 1] + (text + [0]))
  {
    CharsText(text);
    var x := Rem(Chars(text));
    assert Meanings([x]) == [Meant(x)];
    assert AllBytes([Meant(x)]) == TokBytes(Meant(x)) + AllBytes([]);
  }

  lemma ReadsJump(code: Byte, lineno: Int16)
    requires 1 <= code <= KEYWORD_JUMPSUB && lineno >= 0
    ensures ReadsLast([Spelling.Word(code), Spelling.Number(lineno)], JumpBytes(code, Pattern(lineno)))
  {
    hide Reads, ReadsLast, WordBytes, Pattern;
    ReadsWord(code);
    ReadsNumber(lineno);
    ReadsJoin([Spelling.Word(code)], [TOK_KEYWORD, code], [Spelling.Number(lineno)], NumberBytes(lineno));
    assert [Spelling.Word(code)] + [Spelling.Number(lineno)] == [Spelling.Word(code), Spelling.Number(lineno)];
    assert [TOK_KEYWORD, code] + NumberBytes(lineno) == JumpBytes(code, Pattern(lineno));
    ReadsAlone([Spelling.Word(code), Spelling.Number(lineno)], JumpBytes(code, Pattern(lineno)));
  }

  lemma ReadsLet(addrs: seq<Word>, s: Stmt)
    requires ValidStmt(|addrs|, s) && WritableStmt(s) && s.Let?
    ensures ReadsLast(WriteStmt(|addrs|, s), StmtTokens(addrs, s))
  {
    hide Reads, ReadsLast, ExprTokens, WriteExpr, OperandTokens, WriteOperand, ValidExpr, ValidOperand;
    var x, e := s.target, s.value;
    ReadsOperand(x);
    ReadsExpr(e);
    ReadsSign(OP_EQUAL);
    ReadsJoin([Sign(OP_EQUAL)], [TOK_OPERATOR, OP_EQUAL], WriteExpr(e), ExprTokens(e));
    var xs, bs := [Sign(OP_EQUAL)] + WriteExpr(e), [TOK_OPERATOR, OP_EQUAL] + ExprTokens(e);
    ReadsAlone(xs, bs);
    ReadsOn(WriteOperand(x), OperandTokens(x), xs, bs);
  }

  lemma ReadsDim(addrs: seq<Word>, s: Stmt)
    requires ValidStmt(|addrs|, s) && WritableStmt(s) && s.Dim?
    ensures ReadsLast(WriteStmt(|addrs|, s), StmtTokens(addrs, s))
  {
    hide Reads, ReadsLast, VarTokens, WriteVar, NumberBytes;
    var v, k, l, r := s.v, [TOK_KEYWORD, KEYWORD_DIM], [TOK_OPERATOR, OP_LPAREN], [TOK_OPERATOR, OP_RPAREN];
    var n, size := NumberBytes(s.size), [Spelling.Number(s.size)];
    ReadsWord(KEYWORD_DIM);
    ReadsVar(v);
    ReadsSign(OP_LPAREN);
    ReadsSign(OP_RPAREN);
    ReadsNumber(s.size);
    ReadsJoin(size, n, [Sign(OP_RPAREN)], r);
    ReadsJoin([Sign(OP_LPAREN)], l, size + [Sign(OP_RPAREN)], n + r);
    var xs, bs := [Sign(OP_LPAREN)] + (size + [Sign(OP_RPAREN)]), l + (n + r);
    ReadsJoin(WriteVar(v), VarTokens(v), xs, bs);
    ReadsJoin([Spelling.Word(KEYWORD_DIM)], k, WriteVar(v) + xs, VarTokens(v) + bs);
    ReadsAlone([Spelling.Word(KEYWORD_DIM)] + (WriteVar(v) + xs), k + (VarTokens(v) + bs));
  }

  lemma ReadsFor(addrs: seq<Word>, s: Stmt)
    requires ValidStmt(|addrs|, s) && WritableStmt(s) && s.For?
    ensures ReadsLast(WriteStmt(|addrs|, s), StmtTokens(addrs, s))
  {
    hide Reads, ReadsLast, VarTokens, WriteVar, NumberBytes;
    var v, k, o, t := s.v, [TOK_KEYWORD, KEYWORD_FOR], [TOK_OPERATOR, OP_EQUAL], [TOK_KEYWORD, KEYWORD_TO];
    var a, b := [Spelling.Number(s.start)], [Spelling.Number(s.limit)];
    ReadsWord(KEYWORD_FOR);
    ReadsVar(v);
    ReadsSign(OP_EQUAL);
    ReadsNumber(s.start);
    ReadsWord(KEYWORD_TO);
    ReadsNumber(s.limit);
    ReadsJoin([Spelling.Word(KEYWORD_TO)], t, b, NumberBytes(s.limit));
    var xs, bs := [Spelling.Word(KEYWORD_TO)] + b, t + NumberBytes(s.limit);
    ReadsJoin(a, NumberBytes(s.start), xs, bs);
    ReadsJoin([Sign(OP_EQUAL)], o, a + xs, NumberBytes(s.start) + bs);
    ReadsJoin(WriteVar(v), VarTokens(v), [Sign(OP_EQUAL)] + (a + xs), o + (NumberBytes(s.start) + bs));
    var ys, cs := WriteVar(v) + ([Sign(OP_EQUAL)] + (a + xs)), VarTokens(v) + (o + (NumberBytes(s.start) + bs));
    ReadsJoin([Spelling.Word(KEYWORD_FOR)], k, ys, cs);
    ReadsAlone([Spelling.Word(KEYWORD_FOR)] + ys, k + cs);
  }

  lemma ReadsChain(a: seq<Spelling>, a': seq<Byte>, b: seq<Spelling>, b': seq<Byte>, c: seq<Spelling>, c': seq<Byte>,
                   d: seq<Spelling>, d': seq<Byte>, e: seq<Spelling>, e': seq<Byte>, f: seq<Spelling>, f': seq<Byte>)
    requires Reads(a, a') && Reads(b, b') && Reads(c, c') && Reads(d, d') && Reads(e, e') && ReadsLast(f, f')
    ensures ReadsLast(a + (b + (c + (d + (e + f)))), a' + (b' + (c' + (d' + (e' + f')))))
  {
    hide Reads, ReadsLast;
    ReadsOn(e, e', f, f');
    ReadsOn(d, d', e + f, e' + f');
    ReadsOn(c, c', d + (e + f), d' + (e' + f'));
    ReadsOn(b, b', c + (d + (e + f)), c' + (d' + (e' + f')));
    ReadsOn(a, a', b + (c + (d + (e + f))), b' + (c' + (d' + (e' + f'))));
  }

  lemma ReadsIf(left: Expr, comparison: Comparison, right: Expr, ws: seq<Spelling>, bs: seq<Byte>)
    requires ValidExpr(left) && ValidExpr(right) && WritableExpr(left) && WritableExpr(right) && ReadsLast(ws, bs)
    ensures ReadsLast([Spelling.Word(KEYWORD_IF)] + (WriteExpr(left) + ([Sign(ComparisonCode(comparison))]
                      + (WriteExpr(right) + ([Spelling.Word(KEYWORD_THEN)] + ws)))),
                      [TOK_KEYWORD, KEYWORD_IF] + (ExprTokens(left) + ([TOK_OPERATOR, ComparisonCode(comparison)]
                      + (ExprTokens(right) + ([TOK_KEYWORD, KEYWORD_THEN] + bs)))))
  {
    hide Reads, ReadsLast, ExprTokens, WriteExpr, ValidExpr, WritableExpr;
    var o := ComparisonCode(comparison);
    ReadsWord(KEYWORD_IF);
    ReadsExpr(left);
    ReadsSign(o);
    ReadsExpr(right);
    ReadsWord(KEYWORD_THEN);
    ReadsChain([Spelling.Word(KEYWORD_IF)], [TOK_KEYWORD, KEYWORD_IF], WriteExpr(left), ExprTokens(left),
               [Sign(o)], [TOK_OPERATOR, o], WriteExpr(right), ExprTokens(right),
               [Spelling.Word(KEYWORD_THEN)], [TOK_KEYWORD, KEYWORD_THEN], ws, bs);
  }

  // ----- Lines -----

  predicate WritableLine(line: Line) {
    line.no >= 0 && WritableStmt(line.stmt)
  }

  /** A numbered line of a program of `n` lines. */
  function WriteLine(n: nat, line: Line): seq<Spelling>
    requires ValidStmt(n, line.stmt)
  {
    [Spelling.Number(line.no)] + WriteStmt(n, line.stmt)
  }

  /** The text of a line is read as its number and its statement's tokens. */
  lemma LineLexes(addrs: seq<Word>, line: Line)
    requires ValidStmt(|addrs|, line.stmt) && WritableLine(line)
    ensures var xs, ys := WriteLine(|addrs|, line), WriteStmt(|addrs|, line.stmt);
            && Statement(xs) && IsText(Source(xs)) && AllSpellable(ys)
            && LexAll(Source(xs)) == Tokens([Numeric(line.no)] + Meanings(ys))
            && AllBytes(Meanings(ys)) == StmtTokens(addrs, line.stmt)
            && AllBytes([Numeric(line.no)] + Meanings(ys)) == NumberBytes(line.no) + StmtTokens(addrs, line.stmt)
  {
    var ys := WriteStmt(|addrs|, line.stmt);
    ReadsStmt(addrs, line.stmt);
    ReadsNumber(line.no);
    ReadsOn([Spelling.Number(line.no)], NumberBytes(line.no), ys, StmtTokens(addrs, line.stmt));
    hide LexAll, Source, StmtTokens, WriteStmt, ValidStmt, WritableStmt, Spellable, AllBytes, NumberBytes;
    SourceLexes([Spelling.Number(line.no)] + ys);
    MeaningsJoin([Spelling.Number(line.no)], ys);
    assert Meanings([Spelling.Number(line.no)]) == [Numeric(line.no)];
  }

  // ----- Writable means spellable -----

  lemma SpellableJoin(xs: seq<Spelling>, ys: seq<Spelling>)
    ensures AllSpellable(xs + ys) <==> AllSpellable(xs) && AllSpellable(ys)
  {
    hide Spellable;
    if AllSpellable(xs + ys) {
      forall i | 0 <= i < |ys| ensures Spellable(ys[i]) {
        assert (xs + ys)[|xs| + i] == ys[i];
      }
      forall i | 0 <= i < |xs| ensures Spellable(xs[i]) {
        assert (xs + ys)[i] == xs[i];
      }
    }
  }

  lemma SpellableOne(x: Spelling)
    ensures AllSpellable([x]) <==> Spellable(x)
  {
    hide Spellable;
    assert [x][0] == x;
  }

  lemma SpellableSign(code: Byte)
    requires code <= OP_MULT
    ensures AllSpellable([Sign(code)])
  {
  }

  lemma SpellableWord(code: Byte)
    requires 1 <= code <= |KEYWORDS|
    ensures AllSpellable([Spelling.Word(code)])
  {
  }

  lemma SpellableVar(v: Var)
    requires ValidVar(v)
    ensures WritableVar(v) <==> AllSpellable(WriteVar(v))
  {
    hide Reserved;
    SpellableOne(WriteVar(v)[0]);
  }

  lemma SpellableNumber(n: Int16)
    ensures n >= 0 <==> AllSpellable([Spelling.Number(n)])
  {
    SpellableOne(Spelling.Number(n));
  }

  lemma {:induction false} SpellableOperand(x: Operand)
    requires ValidOperand(x)
    ensures WritableOperand(x) <==> AllSpellable(WriteOperand(x))
    decreases x, 0
  {
    hide AllSpellable, WritableVar, WriteVar, ValidExpr, WriteExpr;
    match x {
      case Lit(value) => SpellableNumber(value);
      case Scalar(v) => SpellableVar(v);
      case Element(v, index) =>
        SpellableVar(v);
        SpellableExpr(index);
        SpellableSign(OP_LPAREN);
        SpellableSign(OP_RPAREN);
        SpellableJoin(WriteExpr(index), [Sign(OP_RPAREN)]);
        SpellableJoin([Sign(OP_LPAREN)], WriteExpr(index) + [Sign(OP_RPAREN)]);
        SpellableJoin(WriteVar(v), [Sign(OP_LPAREN)] + (WriteExpr(index) + [Sign(OP_RPAREN)]));
    }
  }

  lemma {:induction false} SpellableTail(t: Tail)
    requires ValidTail(t)
    ensures WritableTail(t) <==> AllSpellable(WriteTail(t))
    decreases t, 0
  {
    hide WritableOperand, ValidOperand, WriteOperand;
    if t.More? {
      hide AllSpellable;
      SpellableOperand(t.operand);
      SpellableTail(t.tail);
      SpellableSign(Code(t.op));
      SpellableJoin(WriteOperand(t.operand), WriteTail(t.tail));
      SpellableJoin([Sign(Code(t.op))], WriteOperand(t.operand) + WriteTail(t.tail));
    }
  }

  lemma {:induction false} SpellableExpr(e: Expr)
    requires ValidExpr(e)
    ensures WritableExpr(e) <==> AllSpellable(WriteExpr(e))
    decreases e, 1
  {
    var minus: seq<Spelling> := if e.negated then [Sign(OP_MINUS)] else [];
    SpellableSign(OP_MINUS);
    assert AllSpellable(minus);
    hide AllSpellable, WritableOperand, WritableTail, ValidOperand, ValidTail, WriteOperand, WriteTail;
    SpellableOperand(e.first);
    SpellableTail(e.rest);
    SpellableJoin(WriteOperand(e.first), WriteTail(e.rest));
    SpellableJoin(minus, WriteOperand(e.first) + WriteTail(e.rest));
  }

  lemma {:induction false} SpellableItems(items: seq<PrintItem>)
    requires items != [] && ValidItems(items)
    ensures WritableItems(items) <==> AllSpellable(WriteItems(items))
    decreases |items|
  {
    SpellableItem(items[0]);
    hide AllSpellable, WritableItem, WriteItem, ValidItem;
    if |items| > 1 {
      SpellableItems(items[1..]);
      assert WritableItems(items) <==> WritableItem(items[0]) && WritableItems(items[1..]);
      SpellableComma();
      SpellableJoin([Comma], WriteItems(items[1..]));
      SpellableJoin(WriteItem(items[0]), [Comma] + WriteItems(items[1..]));
    }
  }

  lemma SpellableComma()
    ensures AllSpellable([Comma])
  {
  }

  lemma SpellableItem(item: PrintItem)
    requires ValidItem(item)
    ensures WritableItem(item) <==> AllSpellable(WriteItem(item))
  {
    if item.Number? {
      SpellableExpr(item.e);
    } else {
      SpellableOne(Quoted(Chars(item.bytes)));
    }
  }

  /** A jump that has been rewritten has no text. */
  predicate Rewritten(s: Stmt) {
    s.Jumpto? || s.Jumpsub? || (s.If? && Rewritten(s.body))
  }

  /** A statement can be written exactly if its words can, and it is no rewritten jump. */
  lemma {:induction false} SpellableStmt(n: nat, s: Stmt)
    requires ValidStmt(n, s)
    ensures WritableStmt(s) <==> !Rewritten(s) && AllSpellable(WriteStmt(n, s))
    decreases s
  {
    hide AllSpellable, ValidExpr, ValidOperand, WritableExpr, WritableOperand, WriteExpr, WriteOperand, WritableVar, WriteVar,
         WritableItems, WriteItems, ValidItems;
    match s {
      case Finish => SpellableWord(KEYWORD_END);
      case Return => SpellableWord(KEYWORD_RETURN);
      case Remark(text) => SpellableRemark(text);
      case Print(items) =>
        SpellableItems(items);
        SpellableWord(KEYWORD_PRINT);
        SpellableJoin([Spelling.Word(KEYWORD_PRINT)], WriteItems(items));
      case Let(target, value) =>
        SpellableOperand(target);
        SpellableExpr(value);
        SpellableSign(OP_EQUAL);
        SpellableJoin([Sign(OP_EQUAL)], WriteExpr(value));
        SpellableJoin(WriteOperand(target), [Sign(OP_EQUAL)] + WriteExpr(value));
      case Dim(v, size) => SpellableDim(v, size);
      case If(left, comparison, right, body) =>
        var rest := [Spelling.Word(KEYWORD_THEN)] + WriteStmt(n, body);
        SpellableExpr(left);
        SpellableExpr(right);
        SpellableStmt(n, body);
        SpellableWord(KEYWORD_IF);
        SpellableWord(KEYWORD_THEN);
        SpellableSign(ComparisonCode(comparison));
        SpellableJoin([Spelling.Word(KEYWORD_THEN)], WriteStmt(n, body));
        SpellableJoin(WriteExpr(right), rest);
        SpellableJoin([Sign(ComparisonCode(comparison))], WriteExpr(right) + rest);
        SpellableJoin(WriteExpr(left), [Sign(ComparisonCode(comparison))] + (WriteExpr(right) + rest));
        SpellableJoin([Spelling.Word(KEYWORD_IF)], WriteExpr(left) + ([Sign(ComparisonCode(comparison))] + (WriteExpr(right) + rest)));
      case Goto(lineno) => SpellableJump(KEYWORD_GOTO, lineno);
      case Gosub(lineno) => SpellableJump(KEYWORD_GOSUB, lineno);
      case For(v, start, limit) => SpellableFor(v, start, limit);
      case Next(v) =>
        SpellableVar(v);
        SpellableWord(KEYWORD_NEXT);
        SpellableJoin([Spelling.Word(KEYWORD_NEXT)], WriteVar(v));
      case Jumpto(_) =>
      case Jumpsub(_) =>
    }
  }

  lemma SpellableRemark(text: seq<Byte>)
    requires |text| < 0xff
    ensures 0 !in text <==> AllSpellable([Rem(Chars(text))])
  {
    SpellableOne(Rem(Chars(text)));
    if 0 in text {
      var i :| 0 <= i < |text| && text[i] == 0;
      assert Chars(text)[i] as int == 0;
    }
  }

  lemma SpellableDim(v: Var, size: Int16)
    requires ValidVar(v)
    ensures WritableVar(v) && size >= 0 <==>
              AllSpellable([Spelling.Word(KEYWORD_DIM)]
                           + (WriteVar(v) + ([Sign(OP_LPAREN)] + ([Spelling.Number(size)] + [Sign(OP_RPAREN)]))))
  {
    hide AllSpellable, WritableVar, WriteVar;
    SpellableVar(v);
    SpellableNumber(size);
    SpellableWord(KEYWORD_DIM);
    SpellableSign(OP_LPAREN);
    SpellableSign(OP_RPAREN);
    SpellableJoin([Spelling.Number(size)], [Sign(OP_RPAREN)]);
    SpellableJoin([Sign(OP_LPAREN)], [Spelling.Number(size)] + [Sign(OP_RPAREN)]);
    SpellableJoin(WriteVar(v), [Sign(OP_LPAREN)] + ([Spelling.Number(size)] + [Sign(OP_RPAREN)]));
    SpellableJoin([Spelling.Word(KEYWORD_DIM)], WriteVar(v) + ([Sign(OP_LPAREN)] + ([Spelling.Number(size)] + [Sign(OP_RPAREN)])));
  }

  lemma SpellableJump(code: Byte, n: Int16)
    requires 1 <= code <= |KEYWORDS|
    ensures n >= 0 <==> AllSpellable([Spelling.Word(code), Spelling.Number(n)])
  {
    SpellableWord(code);
    SpellableNumber(n);
    SpellableJoin([Spelling.Word(code)], [Spelling.Number(n)]);
    assert [Spelling.Word(code)] + [Spelling.Number(n)] == [Spelling.Word(code), Spelling.Number(n)];
  }

  lemma SpellableFor(v: Var, start: Int16, limit: Int16)
    requires ValidVar(v)
    ensures WritableVar(v) && start >= 0 && limit >= 0 <==>
              AllSpellable([Spelling.Word(KEYWORD_FOR)] + (WriteVar(v) + ([Sign(OP_EQUAL)] + ([Spelling.Number(start)]
                           + ([Spelling.Word(KEYWORD_TO)] + [Spelling.Number(limit)])))))
  {
    hide AllSpellable, WritableVar, WriteVar;
    var to := [Spelling.Word(KEYWORD_TO)] + [Spelling.Number(limit)];
    SpellableVar(v);
    SpellableNumber(start);
    SpellableNumber(limit);
    SpellableWord(KEYWORD_FOR);
    SpellableWord(KEYWORD_TO);
    SpellableSign(OP_EQUAL);
    SpellableJoin([Spelling.Word(KEYWORD_TO)], [Spelling.Number(limit)]);
    SpellableJoin([Spelling.Number(start)], to);
    SpellableJoin([Sign(OP_EQUAL)], [Spelling.Number(start)] + to);
    SpellableJoin(WriteVar(v), [Sign(OP_EQUAL)] + ([Spelling.Number(start)] + to));
    SpellableJoin([Spelling.Word(KEYWORD_FOR)], WriteVar(v) + ([Sign(OP_EQUAL)] + ([Spelling.Number(start)] + to)));
  }

  /** So is a line, which has a number. */
  lemma WritableExact(n: nat, line: Line)
    requires ValidStmt(n, line.stmt)
    ensures WritableLine(line) <==> !Rewritten(line.stmt) && AllSpellable(WriteLine(n, line))
  {
    hide AllSpellable, WriteStmt, WritableStmt;
    SpellableStmt(n, line.stmt);
    SpellableNumber(line.no);
    SpellableJoin([Spelling.Number(line.no)], WriteStmt(n, line.stmt));
  }
}
