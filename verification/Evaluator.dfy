/** The expression evaluator: a shunting yard feeding a reverse Polish machine, made re-entrant by
    saving its static cursors around nested evaluations. */
module Evaluators {
  import opened Bytes
  import opened Expressions
  import opened StackMachines

  const OUTPUT_MAX := 256

  /** An operand starts with its kind, never with an operator or an end. */
  lemma OperandHead(x: Operand)
    requires ValidOperand(x)
    ensures OperandTokens(x)[0] == match x
              case Lit(_) => TOK_NUMERIC
              case Scalar(v) => VarTokens(v)[0]
              case Element(v, _) => VarTokens(v)[0]
    ensures OperandTokens(x)[0] in {TOK_NUMERIC, TOK_REGISTER, TOK_VARIABLE}
  {
  }

  /** The tokens after an operand: the next operator, if there is one. */
  lemma TailHead(t: Tail)
    requires ValidTail(t) && t.More?
    ensures TailTokens(t) == [TOK_OPERATOR, Code(t.op)] + (OperandTokens(t.operand) + TailTokens(t.tail))
  {
  }

  predicate IsComparison(code: Byte) {
    code == OP_EQUAL || code == OP_LT || code == OP_GT || code == OP_LTEQ || code == OP_GTEQ
  }

  /** The token at `p` can be read. */
  predicate Readable(toks: seq<Byte>, p: nat) {
    p < |toks| && (toks[p] == TOK_OPERATOR ==> p + 1 < |toks|)
  }

  /** The token at `p` ends an expression. */
  predicate EndsHere(toks: seq<Byte>, p: nat)
    requires Readable(toks, p)
  {
    var tok := toks[p];
    || tok == TOK_TERMINATOR || tok == TOK_SEPARATOR || tok == TOK_KEYWORD
    || (tok == TOK_OPERATOR && (toks[p + 1] == OP_RPAREN || IsComparison(toks[p + 1])))
  }

  /** `e` lies at `p`, followed by a token that ends it. */
  predicate Holds(toks: seq<Byte>, p: nat, e: Expr) {
    && ValidExpr(e) && Here(toks, p, ExprTokens(e))
    && Readable(toks, p + |ExprTokens(e)|) && EndsHere(toks, p + |ExprTokens(e)|)
  }

  function PrecedenceOf(code: Byte): nat {
    if code == OP_MULT then 4 else if code == OP_MINUS then 2 else if code == OP_PLUS then 1 else 0
  }

  /** What the yard still has to read. */
  function Remaining(need: Option<Operand>, tail: Tail): seq<Byte>
    requires ValidTail(tail) && (need.Some? ==> ValidOperand(need.value))
  {
    (if need.Some? then OperandTokens(need.value) else []) + TailTokens(tail)
  }

  /** The yard's cursor: what remains lies at `p` and ends the expression at `end`. */
  ghost predicate Cursor(toks: seq<Byte>, p: nat, need: Option<Operand>, tail: Tail, end: nat) {
    && ValidTail(tail) && (need.Some? ==> ValidOperand(need.value))
    && Here(toks, p, Remaining(need, tail)) && end == p + |Remaining(need, tail)|
    && Readable(toks, end) && EndsHere(toks, end)
  }

  lemma CursorStart(toks: seq<Byte>, p: nat, e: Expr)
    requires Holds(toks, p, e)
    ensures Cursor(toks, p, Start(e).need, Start(e).tail, p + |ExprTokens(e)|)
  {
    assert Remaining(Start(e).need, Start(e).tail) == ExprTokens(e);
  }

  /** An array access does not follow: the token at `p` is no left parenthesis. */
  predicate NoParen(toks: seq<Byte>, p: nat) {
    Readable(toks, p) && !(toks[p] == TOK_OPERATOR && toks[p + 1] == OP_LPAREN)
  }

  /** At an operand: its tokens are here, it does not end the expression, and the rest follows. */
  lemma CursorOperand(toks: seq<Byte>, p: nat, x: Operand, tail: Tail, end: nat)
    requires Cursor(toks, p, Some(x), tail, end)
    ensures ValidOperand(x)
    ensures var bs := OperandTokens(x);
            && Here(toks, p, bs) && Readable(toks, p) && !EndsHere(toks, p) && p + |bs| <= end
            && toks[p] == bs[0] != TOK_OPERATOR && (x.Lit? <==> toks[p] == TOK_NUMERIC)
            && (x.Lit? || toks[p] == TOK_REGISTER || toks[p] == TOK_VARIABLE)
            && Cursor(toks, p + |bs|, None, tail, end) && NoParen(toks, p + |bs|)
  {
    hide Here, OperandTokens, TailTokens, ValidTail, ValidOperand;
    var bs, q := OperandTokens(x), p + |OperandTokens(x)|;
    var rest := TailTokens(tail);
    assert [] + rest == rest;
    HereSplit(toks, p, bs, rest);
    HereAt(toks, p, bs, 0);
    OperandHead(x);
    if tail.More? {
      TailHead(tail);
      HereAt(toks, q, rest, 0);
      HereAt(toks, q, rest, 1);
    } else {
      TailEnd(tail);
    }
  }

  lemma TailEnd(t: Tail)
    requires ValidTail(t) && t.End?
    ensures TailTokens(t) == []
  {
  }

  /** At an operator. */
  lemma CursorOperator(toks: seq<Byte>, p: nat, t: Tail, end: nat)
    requires Cursor(toks, p, None, t, end) && t.More?
    ensures Readable(toks, p) && toks[p] == TOK_OPERATOR && toks[p + 1] == Code(t.op) && !EndsHere(toks, p)
    ensures p + OP_SIZE <= end && Cursor(toks, p + OP_SIZE, Some(t.operand), t.tail, end)
  {
    hide Here, OperandTokens, ValidOperand;
    var head, rest := [TOK_OPERATOR, Code(t.op)], Remaining(Some(t.operand), t.tail);
    TailHead(t);
    assert Remaining(None, t) == head + rest;
    HereSplit(toks, p, head, rest);
    HereAt(toks, p, head, 0);
    HereAt(toks, p, head, 1);
  }

  lemma CursorEnd(toks: seq<Byte>, p: nat, end: nat)
    requires Cursor(toks, p, None, End, end)
    ensures p == end && Readable(toks, p) && EndsHere(toks, p)
  {
  }

  /** The kind of token under the cursor tells what the yard is due to read. */
  lemma CursorKind(toks: seq<Byte>, p: nat, need: Option<Operand>, tail: Tail, end: nat)
    requires Cursor(toks, p, need, tail, end)
    ensures Readable(toks, p)
    ensures EndsHere(toks, p) <==> need.None? && tail.End?
    ensures need.Some? ==> toks[p] != TOK_OPERATOR && (need.value.Lit? <==> toks[p] == TOK_NUMERIC)
                           && (need.value.Lit? || toks[p] == TOK_REGISTER || toks[p] == TOK_VARIABLE)
    ensures need.None? && tail.More? ==> toks[p] == TOK_OPERATOR
  {
    hide Here, OperandTokens, TailTokens, ValidTail, ValidOperand, EndsHere, Remaining, Cursor;
    if need.Some? {
      CursorOperand(toks, p, need.value, tail, end);
    } else if tail.More? {
      CursorOperator(toks, p, tail, end);
    } else {
      CursorEnd(toks, p, end);
    }
  }

  /** The value of a literal is in its tokens. */
  lemma LiteralHere(toks: seq<Byte>, p: nat, x: Operand)
    requires x.Lit? && Here(toks, p, OperandTokens(x))
    ensures |OperandTokens(x)| == NUMERIC_SIZE && p + 2 < |toks|
    ensures Wrap(ToWord(toks[p + 1], toks[p + 2])) == x.value
  {
    HereAt(toks, p, OperandTokens(x), 1);
    HereAt(toks, p, OperandTokens(x), 2);
  }

  lemma LiteralValue(env: Env, x: Operand)
    requires ValidEnv(env) && x.Lit?
    ensures OperandMeaning(env, x) == Ok(x.value)
  {
  }

  /** The operator stack has room for the next operator, and the output for what it takes. */
  lemma YardRoom(y: Yard)
    requires ValidYard(y)
    ensures y.tail.More? ==> |y.ops| < STACK_MAX
    ensures y.need.Some? ==> ValidOperand(y.need.value)
  {
  }

  lemma PrecedenceCoded(op: BinOp)
    ensures PrecedenceOf(Code(op)) == Precedence(op)
  {
  }

  lemma NameHere(toks: seq<Byte>, p: nat, name: seq<Byte>)
    requires |name| < 0xff && Here(toks, p, [TOK_VARIABLE, |name| + 1] + (name + [0]))
    ensures p + |name| + 2 <= |toks| && toks[p + 2..p + 2 + |name|] == name
    ensures toks[p] == TOK_VARIABLE && toks[p + 1] == |name| + 1
  {
    HereSplit(toks, p, [TOK_VARIABLE, |name| + 1], name + [0]);
    HereSplit(toks, p + 2, name, [0]);
    HereAt(toks, p, [TOK_VARIABLE, |name| + 1], 0);
    HereAt(toks, p, [TOK_VARIABLE, |name| + 1], 1);
  }

  /** The parts of an array access. */
  lemma ElementHere(toks: seq<Byte>, p: nat, v: Var, index: Expr)
    requires ValidVar(v) && ValidExpr(index) && Here(toks, p, OperandTokens(Element(v, index)))
    ensures Here(toks, p, VarTokens(v))
    ensures var q := p + |VarTokens(v)|;
            && q + 4 + |ExprTokens(index)| == p + |OperandTokens(Element(v, index))|
            && q + 1 < |toks| && toks[q] == TOK_OPERATOR && toks[q + 1] == OP_LPAREN
            && Holds(toks, q + OP_SIZE, index)
  {
    hide Here, VarTokens, ExprTokens;
    var inner, left, right := ExprTokens(index), [TOK_OPERATOR, OP_LPAREN], [TOK_OPERATOR, OP_RPAREN];
    assert OperandTokens(Element(v, index)) == VarTokens(v) + (left + (inner + right));
    HereSplit(toks, p, VarTokens(v), left + (inner + right));
    var q := p + |VarTokens(v)|;
    HereSplit(toks, q, left, inner + right);
    HereSplit(toks, q + 2, inner, right);
    HereAt(toks, q, left, 0);
    HereAt(toks, q, left, 1);
    HereAt(toks, q + 2 + |inner|, right, 0);
    HereAt(toks, q + 2 + |inner|, right, 1);
  }

  /** The outcome a method reports: an error code, or 0 and a value. */
  predicate Reports<T(==)>(r: Result<T>, error: int, value: T) {
    match r
    case Ok(v) => error == 0 && value == v
    case Err(e) => error == e
  }

  class Evaluator {
    /** The static number stack. */
    const numstack: array<Int16>
    /** The static cursor into the expression. */
    var workingSrc: nat
    /** The static pointer to the top of an operator stack: which stack, and where. */
    var workingOpstack: array<Byte>
    var workingTop: int

    ghost predicate Valid() {
      numstack.Length == STACK_MAX
    }

    constructor ()
      ensures Valid() && fresh(numstack)
    {
      numstack := new Int16[STACK_MAX](_ => 0);
      workingSrc := 0;
      workingOpstack := new Byte[STACK_MAX](_ => 0);
      workingTop := -1;
    }

    // ----- Reverse Polish -----

    /** Applies an operator to the top of the number stack. */
    method Operate(code: Byte, count0: nat, ghost op: BinOp) returns (count: nat)
      requires Valid() && count0 <= STACK_MAX && code == Code(op) && Fine(numstack[..count0], Oper(op))
      modifies numstack
      ensures count <= STACK_MAX && numstack[..count] == Exec(old(numstack[..count0]), Oper(op))
    {
      hide Wrap;
      count := count0;
      ghost var stack := numstack[..count];
      if code == OP_PLUS {
        var a: int, b: int := numstack[count - 1], numstack[count - 2];
        count := count - 1;
        numstack[count - 1] := Wrap(a + b);
      } else if code == OP_MULT {
        var a: int, b: int := numstack[count - 1], numstack[count - 2];
        count := count - 1;
        TimesCommutes(a, b);
        numstack[count - 1] := Wrap(a * b);
      } else if code == OP_MINUS {
        if count == 1 {
          var a: int := numstack[0];
          numstack[0] := Wrap(0 - a);
        } else if count >= 2 {
          var a: int, b: int := numstack[count - 1], numstack[count - 2];
          count := count - 1;
          numstack[count - 1] := Wrap(b - a);
        }
      }
      assert count0 >= 2 ==> numstack[..count] == stack[..count0 - 2] + [numstack[count - 1]];
    }

    /** Runs the items written to the output. */
    method EvalRpn(output: array<Byte>, ghost items: seq<Item>) returns (result: Int16)
      requires Valid() && Runs(items) && |Run(items)| == 1
      requires |ItemsTokens(items)| < output.Length
      requires output[..|ItemsTokens(items)| + 1] == ItemsTokens(items) + [TOK_TERMINATOR]
      requires output as object != numstack
      modifies numstack
      ensures result == Run(items)[0]
    {
      hide Run, Runs, Exec, ItemsTokens;
      var p, count := 0, 0;
      ghost var i, bytes := 0, output[..];
      RunNone(items);
      while true
        invariant 0 <= i <= |items| && p == |ItemsTokens(items[..i])| && output[..] == bytes
        invariant 0 <= count <= STACK_MAX && numstack[..count] == Run(items[..i])
        decreases |items| - i
      {
        OutputAt(bytes, items, i);
        var tok := output[p];
        if tok == TOK_TERMINATOR { break; }
        RunsPrefix(items, i);
        if tok == TOK_NUMERIC {
          var num := Wrap(ToWord(output[p + 1], output[p + 2]));
          ghost var stack := numstack[..count];
          numstack[count] := num;
          count := count + 1;
          PushedNumber(stack, items[i]);
          assert numstack[..count] == stack + [num];
          p := p + NUMERIC_SIZE;
        } else if tok == TOK_OPERATOR {
          count := Operate(output[p + 1], count, items[i].op);
          p := p + OP_SIZE;
        }
        i := i + 1;
      }
      return numstack[count - 1];
    }

    // ----- The shunting yard -----

    method EmitNumber(output: array<Byte>, out: nat, v: Int16, ghost items: seq<Item>) returns (next: nat)
      requires output.Length == OUTPUT_MAX && out + NUMERIC_SIZE <= OUTPUT_MAX
      requires out == |ItemsTokens(items)| && output[..out] == ItemsTokens(items)
      modifies output
      ensures next == out + NUMERIC_SIZE == |ItemsTokens(items + [Val(v)])|
      ensures output[..next] == ItemsTokens(items + [Val(v)])
    {
      TokensMore(items, Val(v));
      output[out], output[out + 1], output[out + 2] := TOK_NUMERIC, WordBytes(Pattern(v))[0], WordBytes(Pattern(v))[1];
      assert output[..out + NUMERIC_SIZE] == output[..out] + ItemTokens(Val(v));
      return out + NUMERIC_SIZE;
    }

    method EmitOperator(output: array<Byte>, out: nat, code: Byte, ghost items: seq<Item>, ghost op: BinOp)
      returns (next: nat)
      requires output.Length == OUTPUT_MAX && out + OP_SIZE <= OUTPUT_MAX && code == Code(op)
      requires out == |ItemsTokens(items)| && output[..out] == ItemsTokens(items)
      modifies output
      ensures next == out + OP_SIZE == |ItemsTokens(items + [Oper(op)])|
      ensures output[..next] == ItemsTokens(items + [Oper(op)])
    {
      TokensMore(items, Oper(op));
      output[out], output[out + 1] := TOK_OPERATOR, code;
      assert output[..out + OP_SIZE] == output[..out] + ItemTokens(Oper(op));
      return out + OP_SIZE;
    }

    /** The static pointer is at the top of this operator stack, which holds `ops`. */
    ghost predicate Stacked(opstack: array<Byte>, count: int, ops: seq<BinOp>)
      reads this, opstack
    {
      && workingOpstack == opstack && opstack.Length == STACK_MAX
      && count == |ops| <= STACK_MAX && workingTop == count - 1
      && (forall i :: 0 <= i < count ==> opstack[i] == Code(ops[i]))
    }

    /** The output holds the items of the yard, and the yard denotes `r`. */
    ghost predicate Yarded(output: array<Byte>, out: nat, env: Env, y: Yard, r: Result<Int16>)
      reads output
    {
      && output.Length == OUTPUT_MAX && out == |ItemsTokens(y.items)| <= OUTPUT_MAX
      && output[..out] == ItemsTokens(y.items)
      && ValidEnv(env) && ValidYard(y) && Outcome(env, y) == r
    }

    /** Moves the operator on top of the stack to the output. */
    method PopToOutput(opstack: array<Byte>, count0: int, output: array<Byte>, out: nat, env: Env, ghost y: Yard,
                       ghost r: Result<Int16>) returns (count: int, next: nat)
      requires Stacked(opstack, count0, y.ops) && Yarded(output, out, env, y, r) && opstack != output
      requires y.need.None? && y.ops != []
      requires y.tail.More? ==> Precedence(y.tail.op) < Precedence(y.ops[|y.ops| - 1])
      modifies this`workingTop, output
      ensures Stacked(opstack, count, PopOperator(y).ops) && Yarded(output, next, env, PopOperator(y), r)
    {
      hide ValidYard, Outcome, ItemsTokens;
      OperatorPopped(env, y);
      var op := workingOpstack[workingTop];
      workingTop := workingTop - 1;
      count := count0 - 1;
      next := EmitOperator(output, out, op, y.items, y.ops[|y.ops| - 1]);
    }

    /** Writes the value of the operand that is due to the output. */
    method PutNumber(output: array<Byte>, out0: nat, num: Int16, env: Env, ghost y0: Yard, ghost r: Result<Int16>)
      returns (out: nat, ghost y: Yard)
      requires Yarded(output, out0, env, y0, r) && y0.need.Some? && ValidOperand(y0.need.value)
      requires OperandMeaning(env, y0.need.value) == Ok(num)
      modifies output
      ensures Yarded(output, out, env, y, r) && y.need == None && y.tail == y0.tail && y.ops == y0.ops
    {
      hide ValidYard, Outcome, ItemsTokens, OperandMeaning, ValidOperand;
      OperandTaken(env, y0, num);
      out := EmitNumber(output, out0, num, y0.items);
      y := TakeOperand(y0, num);
    }

    /** Before an operator: moves the operators that bind stronger to the output. */
    method PopStronger(opstack: array<Byte>, count0: int, output: array<Byte>, out0: nat, env: Env, ghost y0: Yard,
                       ghost r: Result<Int16>, code: Byte) returns (count: int, out: nat, ghost y: Yard)
      requires Stacked(opstack, count0, y0.ops) && Yarded(output, out0, env, y0, r) && opstack != output
      requires y0.need.None? && y0.tail.More? && code == Code(y0.tail.op)
      modifies this`workingTop, output
      ensures Stacked(opstack, count, y.ops) && Yarded(output, out, env, y, r)
      ensures y.need == y0.need && y.tail == y0.tail
      ensures y.ops != [] ==> Precedence(y.ops[|y.ops| - 1]) <= Precedence(y.tail.op)
    {
      hide ValidYard, Outcome, ItemsTokens;
      count, out, y := count0, out0, y0;
      PrecedenceCoded(y.tail.op);
      while count > 0 && PrecedenceOf(workingOpstack[workingTop]) > PrecedenceOf(code)
        invariant Stacked(opstack, count, y.ops) && Yarded(output, out, env, y, r)
        invariant y.need == y0.need && y.tail == y0.tail
      {
        PrecedenceCoded(y.ops[count - 1]);
        count, out := PopToOutput(opstack, count, output, out, env, y, r);
        y := PopOperator(y);
      }
      if count > 0 { PrecedenceCoded(y.ops[count - 1]); }
    }

    /** An operator token: the stronger operators go to the output, this one on the stack. */
    method TakeOperator(opstack: array<Byte>, count0: int, output: array<Byte>, out0: nat, env: Env, ghost y0: Yard,
                        ghost r: Result<Int16>, code: Byte) returns (count: int, out: nat, ghost y: Yard)
      requires Stacked(opstack, count0, y0.ops) && Yarded(output, out0, env, y0, r) && opstack != output
      requires y0.need.None? && y0.tail.More? && code == Code(y0.tail.op)
      modifies this`workingTop, output, opstack
      ensures Stacked(opstack, count, y.ops) && Yarded(output, out, env, y, r)
      ensures y.need == Some(y0.tail.operand) && y.tail == y0.tail.tail
    {
      hide ValidYard, Outcome, ItemsTokens;
      count, out, y := PopStronger(opstack, count0, output, out0, env, y0, r, code);
      YardRoom(y);
      OperatorPushed(env, y);
      workingTop := workingTop + 1;
      workingOpstack[workingTop] := code;
      count := count + 1;
      y := PushOperator(y);
    }

    /** At the end: moves all operators to the output. */
    method PopAll(opstack: array<Byte>, count0: int, output: array<Byte>, out0: nat, env: Env, ghost y0: Yard,
                  ghost r: Result<Int16>) returns (count: int, out: nat, ghost y: Yard)
      requires Stacked(opstack, count0, y0.ops) && Yarded(output, out0, env, y0, r) && opstack != output
      requires y0.need.None? && y0.tail.End?
      modifies this`workingTop, output
      ensures Stacked(opstack, count, y.ops) && Yarded(output, out, env, y, r)
      ensures y.need == y0.need && y.tail == y0.tail && y.ops == []
    {
      hide ValidYard, Outcome, ItemsTokens;
      count, out, y := count0, out0, y0;
      while count > 0
        invariant Stacked(opstack, count, y.ops) && Yarded(output, out, env, y, r)
        invariant y.need == y0.need && y.tail == y0.tail
      {
        count, out := PopToOutput(opstack, count, output, out, env, y, r);
        y := PopOperator(y);
      }
    }

    /** Translates an expression, its variables replaced by their values, to reverse Polish. */
    method ShuntingYard(toks: seq<Byte>, src0: nat, output: array<Byte>, env: Env, ghost e: Expr)
      returns (error: int, end: nat, ghost items: seq<Item>)
      requires Valid() && ValidEnv(env) && Holds(toks, src0, e) && output.Length == OUTPUT_MAX
      requires output as object != numstack
      modifies this`workingSrc, this`workingOpstack, this`workingTop, numstack, output
      ensures Meaning(env, e).Err? ==> error == Meaning(env, e).error
      ensures Meaning(env, e).Ok? ==>
                && error == 0 && end == src0 + |ExprTokens(e)|
                && Runs(items) && |Run(items)| == 1 && Run(items)[0] == Meaning(env, e).value
                && |ItemsTokens(items)| < OUTPUT_MAX
                && output[..|ItemsTokens(items)| + 1] == ItemsTokens(items) + [TOK_TERMINATOR]
      decreases |toks| - src0, 1
    {
      hide Yarded, Meaning, Run, Runs, ItemsTokens, Here, OperandTokens, TailTokens, ExprTokens, EndsHere,
           ValidOperand, OperandMeaning, PlaceOf, Load, Cursor, ValidExpr, Wrap, NoParen, Start;
      var src, opstackTop := src0, -1;
      var opstack := new Byte[STACK_MAX](_ => 0);
      var count := 0;
      var out: nat := 0;
      workingSrc, workingOpstack, workingTop := src0, opstack, -1;
      ghost var y, r, last := Start(e), Meaning(env, e), src0 + |ExprTokens(e)|;
      CursorStart(toks, src0, e);
      YardBegin(output, env, e);
      while true
        invariant Valid() && fresh(opstack) && src0 <= workingSrc <= last
        invariant Stacked(opstack, count, y.ops) && Yarded(output, out, env, y, r)
        invariant Cursor(toks, workingSrc, y.need, y.tail, last)
        decreases last - workingSrc
      {
        CursorKind(toks, workingSrc, y.need, y.tail, last);
        if EndsHere(toks, workingSrc) { break; }
        var tok := toks[workingSrc];
        if tok == TOK_NUMERIC {
          CursorOperand(toks, workingSrc, y.need.value, y.tail, last);
          LiteralHere(toks, workingSrc, y.need.value);
          LiteralValue(env, y.need.value);
          var num := Wrap(ToWord(toks[workingSrc + 1], toks[workingSrc + 2]));
          out, y := PutNumber(output, out, num, env, y, r);
          workingSrc := workingSrc + NUMERIC_SIZE;
        } else if tok == TOK_VARIABLE || tok == TOK_REGISTER {
          CursorOperand(toks, workingSrc, y.need.value, y.tail, last);
          src := workingSrc;
          opstackTop := workingTop;
          var err, next, place := GetPtr(toks, src, env, y.need.value);
          PlaceLoads(env, y.need.value);
          if err != 0 {
            err, next, place := GetPtr(toks, src, env, y.need.value);
            YardFails(output, out, env, y, r);
            return err, 0, [];
          }
          workingOpstack, workingTop := opstack, opstackTop;
          workingSrc := src;
          out, y := PutNumber(output, out, Load(env, place), env, y, r);
          workingSrc := next;
        } else if tok == TOK_OPERATOR {
          CursorOperator(toks, workingSrc, y.tail, last);
          count, out, y := TakeOperator(opstack, count, output, out, env, y, r, toks[workingSrc + 1]);
          workingSrc := workingSrc + OP_SIZE;
        }
      }
      CursorEnd(toks, workingSrc, last);
      count, out, y := PopAll(opstack, count, output, out, env, y, r);
      Terminate(output, out, env, y, r);
      return 0, workingSrc, y.items;
    }

    /** Ends the output. */
    method Terminate(output: array<Byte>, out: nat, env: Env, ghost y: Yard, ghost r: Result<Int16>)
      requires Yarded(output, out, env, y, r) && y.need.None? && y.tail.End? && y.ops == []
      modifies output
      ensures Runs(y.items) && |Run(y.items)| == 1 && r == Ok(Run(y.items)[0])
      ensures |ItemsTokens(y.items)| < OUTPUT_MAX
      ensures output[..|ItemsTokens(y.items)| + 1] == ItemsTokens(y.items) + [TOK_TERMINATOR]
    {
      hide Run, Runs, ItemsTokens, ValidYard, Outcome;
      YardDone(env, y);
      output[out] := TOK_TERMINATOR;
      assert output[..out + 1] == output[..out] + [TOK_TERMINATOR];
    }

    lemma YardBegin(output: array<Byte>, env: Env, e: Expr)
      requires ValidEnv(env) && ValidExpr(e) && output.Length == OUTPUT_MAX
      ensures Yarded(output, 0, env, Start(e), Meaning(env, e)) && Start(e).ops == []
    {
      StartDenotes(env, e);
    }

    lemma YardFails(output: array<Byte>, out: nat, env: Env, y: Yard, r: Result<Int16>)
      requires Yarded(output, out, env, y, r) && y.need.Some?
      requires ValidOperand(y.need.value) && OperandMeaning(env, y.need.value).Err?
      ensures r == Err(OperandMeaning(env, y.need.value).error)
    {
    }

    /** The cell a variable names: a register, or the first definition of the name. */
    static method GetNumericRef(toks: seq<Byte>, p: nat, env: Env, ghost v: Var) returns (found: Option<Place>)
      requires ValidEnv(env) && ValidVar(v) && Here(toks, p, VarTokens(v))
      ensures found == VarPlace(env, v)
    {
      VarAlone(toks, p, v);
      if toks[p] == TOK_REGISTER { return Some(InRegister(toks[p + 1])); }
      var name := toks[p + 2..p + 1 + toks[p + 1]];
      for i := 0 to |env.context|
        invariant forall j :: 0 <= j < i ==> env.context[j].0 != v.name
      {
        if env.context[i].0 == name { return Some(InContext(i)); }
      }
      return None;
    }

    static method GetArray(toks: seq<Byte>, p: nat, env: Env, ghost v: Var) returns (error: int, address: Word)
      requires ValidEnv(env) && ValidVar(v) && Here(toks, p, VarTokens(v))
      ensures Reports(ArrayOf(env, v), error, address)
    {
      VarAlone(toks, p, v);
      if toks[p] == TOK_REGISTER {
        var reg := env.registers[toks[p + 1]];
        if !reg.defined { return ERROR_UNDEFINED_ARRAY, 0; }
        return 0, Pattern(reg.value);
      }
      var found := GetNumericRef(toks, p, env, v);
      if found.None? { return ERROR_UNDEFINED_ARRAY, 0; }
      return 0, Pattern(Load(env, found.value));
    }

    /** Where the value of a variable or array element is. An index is evaluated by the evaluator itself. */
    method GetPtr(toks: seq<Byte>, p: nat, env: Env, ghost x: Operand) returns (error: int, next: nat, place: Place)
      requires Valid() && ValidEnv(env) && ValidOperand(x) && Here(toks, p, OperandTokens(x))
      requires !x.Lit? && NoParen(toks, p + |OperandTokens(x)|)
      modifies this`workingSrc, this`workingOpstack, this`workingTop, numstack
      ensures Reports(PlaceOf(env, x), error, place)
      ensures error == 0 ==> next == p + |OperandTokens(x)|
      decreases |toks| - p, 0
    {
      hide Here, EndsHere, Meaning, ArrayOf, ExprTokens, VarTokens, ElementPlace;
      ghost var v := x.v;
      OperandVar(toks, p, x);
      next := p + if toks[p] == TOK_VARIABLE then 2 + toks[p + 1] else REGISTER_SIZE;
      if toks[next] == TOK_OPERATOR && toks[next + 1] == OP_LPAREN {
        ElementHere(toks, p, v, x.index);
        var err, index, exprEnd := EvalNumeric(toks, next + OP_SIZE, env, x.index);
        if err != 0 {
          err, index, exprEnd := EvalNumeric(toks, next + OP_SIZE, env, x.index);
          return err, 0, InMemory(0);
        }
        next := exprEnd + OP_SIZE;
        var e, a := GetArray(toks, p, env, v);
        if e != 0 {
          e, a := GetArray(toks, p, env, v);
          return e, 0, InMemory(0);
        }
        var base: int, i: int := a, index;
        var size := At(env, base + 1);
        ElementCases(env, a, index);
        if i < 1 { return ERROR_RANGE, 0, InMemory(0); }
        if i * 2 > size { return ERROR_RANGE, 0, InMemory(0); }
        return 0, next, InMemory((base + 2 + (i - 1) * 2) % 0x1_0000);
      } else {
        var found := GetNumericRef(toks, p, env, v);
        if found.None? { return ERROR_UNDEFINED_VAR, 0, InMemory(0); }
        return 0, next, found.value;
      }
    }

    // ----- The whole evaluator -----

    /** Evaluates an expression: a lone number or register directly, anything else by the two machines. */
    method EvalNumeric(toks: seq<Byte>, src: nat, env: Env, ghost e: Expr) returns (error: int, result: Int16, end: nat)
      requires Valid() && ValidEnv(env) && Holds(toks, src, e)
      modifies this`workingSrc, this`workingOpstack, this`workingTop, numstack
      ensures Reports(Meaning(env, e), error, result)
      ensures error == 0 ==> end == src + |ExprTokens(e)|
      decreases |toks| - src, 2
    {
      hide Here, EndsHere, Meaning, ExprTokens, ValidExpr, ItemsTokens, Run, Runs;
      Shortcut(toks, src, env, e);
      if toks[src] == TOK_NUMERIC && EndsHere(toks, src + NUMERIC_SIZE) {
        return 0, Wrap(ToWord(toks[src + 1], toks[src + 2])), src + NUMERIC_SIZE;
      } else if toks[src] == TOK_REGISTER && EndsHere(toks, src + REGISTER_SIZE) {
        return 0, env.registers[toks[src + 1]].value, src + REGISTER_SIZE;
      }
      var output := new Byte[OUTPUT_MAX](_ => 0);
      ghost var items;
      error, end, items := ShuntingYard(toks, src, output, env, e);
      if error != 0 {
        error, end, items := ShuntingYard(toks, src, output, env, e);
        return error, 0, 0;
      }
      result := EvalRpn(output, items);
    }
  }

  lemma VarAlone(toks: seq<Byte>, p: nat, v: Var)
    requires ValidVar(v) && Here(toks, p, VarTokens(v))
    ensures p + |VarTokens(v)| <= |toks| && p + 1 < |toks|
    ensures v.Register? ==> toks[p] == TOK_REGISTER && toks[p + 1] == v.letter && |VarTokens(v)| == REGISTER_SIZE
    ensures v.Named? ==> toks[p] == TOK_VARIABLE && toks[p + 1] == |v.name| + 1 && |VarTokens(v)| == |v.name| + 3
                         && toks[p + 2..p + 2 + |v.name|] == v.name
  {
    hide Letters;
    match v {
      case Register(letter) =>
        HereAt(toks, p, [TOK_REGISTER, letter], 0);
        HereAt(toks, p, [TOK_REGISTER, letter], 1);
      case Named(name) =>
        NameHere(toks, p, name);
    }
  }

  /** The variable of an operand, where it ends, and whether an index follows. */
  lemma OperandVar(toks: seq<Byte>, p: nat, x: Operand)
    requires ValidOperand(x) && !x.Lit? && Here(toks, p, OperandTokens(x)) && NoParen(toks, p + |OperandTokens(x)|)
    ensures ValidVar(x.v) && Here(toks, p, VarTokens(x.v)) && p + 1 < |toks|
    ensures |VarTokens(x.v)| == if toks[p] == TOK_VARIABLE then 2 + toks[p + 1] else REGISTER_SIZE
    ensures Readable(toks, p + |VarTokens(x.v)|)
    ensures x.Element? <==> toks[p + |VarTokens(x.v)|] == TOK_OPERATOR && toks[p + |VarTokens(x.v)| + 1] == OP_LPAREN
    ensures x.Scalar? ==> |OperandTokens(x)| == |VarTokens(x.v)|
  {
    hide Here;
    if x.Element? {
      ElementHere(toks, p, x.v, x.index);
    }
    VarAlone(toks, p, x.v);
  }

  lemma ElementCases(env: Env, a: Word, index: Int16)
    requires ValidEnv(env)
    ensures ElementPlace(env, a, index)
            == if index < 1 || index * 2 > At(env, a + 1) then Err(ERROR_RANGE)
               else Ok(InMemory((a + 2 + (index - 1) * 2) % 0x1_0000))
  {
  }

  /** A variable means what is kept at its place. */
  lemma PlaceLoads(env: Env, x: Operand)
    requires ValidEnv(env) && ValidOperand(x) && !x.Lit?
    ensures PlaceOf(env, x).Ok? ==> OperandMeaning(env, x) == Ok(Load(env, PlaceOf(env, x).value))
    ensures PlaceOf(env, x).Err? ==> OperandMeaning(env, x) == Err(PlaceOf(env, x).error)
  {
  }

  /** A single number or register followed by an end is the whole expression, and means itself. */
  lemma Shortcut(toks: seq<Byte>, p: nat, env: Env, e: Expr)
    requires ValidEnv(env) && Holds(toks, p, e)
    ensures Readable(toks, p)
    ensures toks[p] == TOK_NUMERIC ==> p + 2 < |toks| && Readable(toks, p + NUMERIC_SIZE)
    ensures toks[p] == TOK_NUMERIC && EndsHere(toks, p + NUMERIC_SIZE) ==>
              && |ExprTokens(e)| == NUMERIC_SIZE
              && Meaning(env, e) == Ok(Wrap(ToWord(toks[p + 1], toks[p + 2])))
    ensures toks[p] == TOK_REGISTER ==> p + 1 < |toks| && toks[p + 1] < NUM_REGISTERS && Readable(toks, p + REGISTER_SIZE)
    ensures toks[p] == TOK_REGISTER && EndsHere(toks, p + REGISTER_SIZE) ==>
              && |ExprTokens(e)| == REGISTER_SIZE
              && Meaning(env, e) == Ok(env.registers[toks[p + 1]].value)
  {
    hide Here, OperandTokens, TailTokens, EndsHere;
    CursorStart(toks, p, e);
    if e.negated {
      CursorOperator(toks, p, Start(e).tail, p + |ExprTokens(e)|);
    } else {
      FirstOperand(toks, p, env, e);
    }
  }

  lemma ParenNoEnd(toks: seq<Byte>, p: nat)
    requires Readable(toks, p)
    ensures EndsHere(toks, p) ==> NoParen(toks, p)
  {
  }

  lemma FirstOperand(toks: seq<Byte>, p: nat, env: Env, e: Expr)
    requires ValidEnv(env) && Holds(toks, p, e) && !e.negated
    ensures Readable(toks, p)
    ensures toks[p] == TOK_NUMERIC ==> p + 2 < |toks| && Readable(toks, p + NUMERIC_SIZE)
    ensures toks[p] == TOK_NUMERIC && EndsHere(toks, p + NUMERIC_SIZE) ==>
              && |ExprTokens(e)| == NUMERIC_SIZE
              && Meaning(env, e) == Ok(Wrap(ToWord(toks[p + 1], toks[p + 2])))
    ensures toks[p] == TOK_REGISTER ==> p + 1 < |toks| && toks[p + 1] < NUM_REGISTERS && Readable(toks, p + REGISTER_SIZE)
    ensures toks[p] == TOK_REGISTER && EndsHere(toks, p + REGISTER_SIZE) ==>
              && |ExprTokens(e)| == REGISTER_SIZE
              && Meaning(env, e) == Ok(env.registers[toks[p + 1]].value)
  {
    hide Here, OperandTokens, TailTokens, EndsHere, Meaning, OperandMeaning, PlaceOf, Load, ValidTail, ValidOperand,
         ExprTokens, VarTokens, Cursor, Remaining, Wrap, ToWord;
    var x, end := e.first, p + |ExprTokens(e)|;
    CursorStart(toks, p, e);
    CursorOperand(toks, p, x, e.rest, end);
    CursorKind(toks, p + |OperandTokens(x)|, None, e.rest, end);
    if x.Lit? {
      LiteralHere(toks, p, x);
      LiteralValue(env, x);
    } else {
      OperandVar(toks, p, x);
      VarAlone(toks, p, x.v);
      ParenNoEnd(toks, p + |VarTokens(x.v)|);
      RegisterValue(env, x);
    }
    if e.rest.End? {
      LoneOperand(env, e);
    }
  }

  lemma RegisterValue(env: Env, x: Operand)
    requires ValidEnv(env) && ValidOperand(x)
    ensures x.Scalar? && x.v.Register? ==> OperandMeaning(env, x) == Ok(env.registers[x.v.letter].value)
  {
  }

  lemma LoneOperand(env: Env, e: Expr)
    requires ValidEnv(env) && ValidExpr(e) && !e.negated && e.rest.End?
    ensures Meaning(env, e) == OperandMeaning(env, e.first) && ExprTokens(e) == OperandTokens(e.first)
  {
    TailEnd(e.rest);
  }

  lemma TimesCommutes(a: int, b: int)
    ensures a * b == b * a
  {
  }

  lemma RunNone(items: seq<Item>)
    ensures items[..0] == [] && Run(items[..0]) == [] && ItemsTokens(items[..0]) == []
  {
  }

  lemma PushedNumber(stack: seq<Int16>, it: Item)
    requires it.Val?
    ensures Exec(stack, it) == stack + [Wrap(ToWord(ItemTokens(it)[1], ItemTokens(it)[2]))]
  {
  }

  /** What the output holds at the start of item `i`, or past the last one. */
  lemma OutputAt(output: seq<Byte>, items: seq<Item>, i: nat)
    requires i <= |items| && |ItemsTokens(items)| < |output|
    requires output[..|ItemsTokens(items)| + 1] == ItemsTokens(items) + [TOK_TERMINATOR]
    ensures var p := |ItemsTokens(items[..i])|;
            && p <= |ItemsTokens(items)|
            && (i == |items| ==> items[..i] == items && output[p] == TOK_TERMINATOR)
            && (i < |items| ==>
                  && |ItemsTokens(items[..i + 1])| == p + |ItemTokens(items[i])| <= |ItemsTokens(items)|
                  && p + |ItemTokens(items[i])| <= |output|
                  && output[p] == ItemTokens(items[i])[0] && output[p + 1] == ItemTokens(items[i])[1]
                  && (items[i].Val? ==> output[p + 2] == ItemTokens(items[i])[2]))
  {
    hide ItemsTokens, Here, ItemTokens;
    var whole := ItemsTokens(items);
    OutputHere(output, whole);
    HereAt(output, |whole|, [TOK_TERMINATOR], 0);
    if i == |items| {
      assert items[..i] == items;
    } else {
      TokensAt(items, i);
      ItemLength(items[i]);
      var p, bs := |ItemsTokens(items[..i])|, ItemTokens(items[i]);
      HereSlice(output, whole, p, p + |bs|);
      HereAt(output, p, bs, 0);
      HereAt(output, p, bs, 1);
      if items[i].Val? {
        HereAt(output, p, bs, 2);
      }
    }
  }

  lemma ItemLength(it: Item)
    ensures |ItemTokens(it)| == if it.Val? then NUMERIC_SIZE else OP_SIZE
  {
  }

  lemma OutputHere(output: seq<Byte>, whole: seq<Byte>)
    requires |whole| < |output| && output[..|whole| + 1] == whole + [TOK_TERMINATOR]
    ensures Here(output, 0, whole) && Here(output, |whole|, [TOK_TERMINATOR])
  {
    HereSplit(output, 0, whole, [TOK_TERMINATOR]);
  }
}
