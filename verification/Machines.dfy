/** The two stack machines of the evaluator as values: reverse Polish items, and the configurations
    of the shunting yard with the expression they still denote. */
module StackMachines {
  import opened Bytes
  import opened Expressions

  // ----- Reverse Polish -----

  datatype Item = Val(v: Int16) | Oper(op: BinOp)

  /** One item on the number stack. A minus that finds a single number negates it. */
  function Exec(stack: seq<Int16>, it: Item): seq<Int16> {
    var n := |stack|;
    match it
    case Val(v) => stack + [v]
    case Oper(op) =>
      if n >= 2 then stack[..n - 2] + [Apply(op, stack[n - 2], stack[n - 1])]
      else if n == 1 && op == Minus then [Negate(stack[0])]
      else stack
  }

  function Run(items: seq<Item>): seq<Int16> {
    if items == [] then [] else Exec(Run(items[..|items| - 1]), items[|items| - 1])
  }

  /** The machine neither overruns its stack of 16 numbers nor pops an empty one. */
  predicate Fine(stack: seq<Int16>, it: Item) {
    match it
    case Val(_) => |stack| < STACK_MAX
    case Oper(op) => (if op == Minus then 1 else 2) <= |stack| <= STACK_MAX
  }

  predicate Runs(items: seq<Item>) {
    items == [] || (Runs(items[..|items| - 1]) && Fine(Run(items[..|items| - 1]), items[|items| - 1]))
  }

  lemma RunMore(items: seq<Item>, it: Item)
    requires Runs(items) && Fine(Run(items), it)
    ensures Runs(items + [it]) && Run(items + [it]) == Exec(Run(items), it)
  {
    assert (items + [it])[..|items|] == items;
  }

  function ItemTokens(it: Item): seq<Byte> {
    match it
    case Val(v) => [TOK_NUMERIC] + WordBytes(Pattern(v))
    case Oper(op) => [TOK_OPERATOR, Code(op)]
  }

  function ItemsTokens(items: seq<Item>): seq<Byte> {
    if items == [] then [] else ItemsTokens(items[..|items| - 1]) + ItemTokens(items[|items| - 1])
  }

  lemma TokensMore(items: seq<Item>, it: Item)
    ensures ItemsTokens(items + [it]) == ItemsTokens(items) + ItemTokens(it)
  {
    assert (items + [it])[..|items|] == items;
  }

  /** The tokens of item `i` lie where the tokens of the earlier ones end. */
  lemma {:induction false} TokensAt(items: seq<Item>, i: nat)
    requires i < |items|
    ensures var p := |ItemsTokens(items[..i])|;
            && p + |ItemTokens(items[i])| <= |ItemsTokens(items)|
            && ItemsTokens(items)[p..p + |ItemTokens(items[i])|] == ItemTokens(items[i])
            && |ItemsTokens(items[..i + 1])| == p + |ItemTokens(items[i])|
    decreases |items|
  {
    hide ItemTokens;
    var init := items[..|items| - 1];
    if i < |init| {
      TokensAt(init, i);
      assert init[..i] == items[..i] && init[..i + 1] == items[..i + 1];
    } else {
      assert items[..i] == init && items[..i + 1] == items;
    }
  }

  lemma {:induction false} RunsPrefix(items: seq<Item>, i: nat)
    requires Runs(items) && i < |items|
    ensures Runs(items[..i]) && Fine(Run(items[..i]), items[i])
    ensures Run(items[..i + 1]) == Exec(Run(items[..i]), items[i])
    decreases |items|
  {
    var init := items[..|items| - 1];
    if i < |init| {
      RunsPrefix(init, i);
      assert init[..i] == items[..i] && init[..i + 1] == items[..i + 1];
    } else {
      assert items[..i] == init && items[..i + 1] == items;
    }
  }

  // ----- The shunting yard -----

  /** Precedences never fall going up the operator stack. */
  predicate Sorted(ops: seq<BinOp>) {
    forall i :: 0 < i < |ops| ==> Precedence(ops[i - 1]) <= Precedence(ops[i])
  }

  /** What the yard has done and still has to read. `zero` tells that a leading minus waits on the
      operator stack: it stands for a subtraction from a zero that is not on the number stack. */
  datatype Yard = Yard(items: seq<Item>, ops: seq<BinOp>, zero: bool, need: Option<Operand>, tail: Tail)

  function Numbers(y: Yard): seq<Int16> {
    (if y.zero then [0] else []) + Run(y.items)
  }

  ghost predicate ValidYard(y: Yard) {
    && Runs(y.items) && Sorted(y.ops)
    && |Numbers(y)| == |y.ops| + (if y.need.None? then 1 else 0)
    && (y.zero && y.ops != [] ==> y.ops[0] == Minus)
    && (y.zero && y.ops == [] ==> y.tail.More? && y.tail.op == Minus)
    && |y.ops| + Length(y.tail) + (if y.zero then 0 else 1) <= STACK_MAX
    && |ItemsTokens(y.items)| + 2 * |y.ops| + (if y.need.Some? then 3 else 0) + 5 * Length(y.tail) <= 5 * STACK_MAX
    && ValidTail(y.tail) && (y.need.Some? ==> ValidOperand(y.need.value))
  }

  /** What the whole expression comes to, from here. */
  function Outcome(env: Env, y: Yard): Result<Int16>
    requires ValidEnv(env) && ValidTail(y.tail) && (y.need.Some? ==> ValidOperand(y.need.value))
    requires |Numbers(y)| == |y.ops| + (if y.need.None? then 1 else 0)
  {
    match y.need
    case None =>
      (match TailMeaning(env, y.tail)
       case Err(e) => Err(e)
       case Ok(vs) => Ok(Combine(Numbers(y) + vs, y.ops + Ops(y.tail))))
    case Some(x) =>
      (match OperandMeaning(env, x)
       case Err(e) => Err(e)
       case Ok(v) =>
         match TailMeaning(env, y.tail)
         case Err(e) => Err(e)
         case Ok(vs) => Ok(Combine(Numbers(y) + [v] + vs, y.ops + Ops(y.tail))))
  }

  function Start(e: Expr): Yard {
    if e.negated then Yard([], [], true, None, More(Minus, e.first, e.rest))
    else Yard([], [], false, Some(e.first), e.rest)
  }

  lemma StartDenotes(env: Env, e: Expr)
    requires ValidEnv(env) && ValidExpr(e)
    ensures ValidYard(Start(e)) && Outcome(env, Start(e)) == Meaning(env, e)
  {
    hide Combine, OperandMeaning, Total;
    if OperandMeaning(env, e.first).Ok? && TailMeaning(env, e.rest).Ok? {
      StartValue(e, OperandMeaning(env, e.first).value, TailMeaning(env, e.rest).value);
    }
  }

  lemma StartValue(e: Expr, v: Int16, vs: seq<Int16>)
    requires |vs| == Length(e.rest)
    ensures if e.negated then
              Combine([0] + [] + ([v] + vs), [] + ([Minus] + Ops(e.rest))) == Total(true, [v] + vs, Ops(e.rest))
            else Combine([] + [] + [v] + vs, [] + Ops(e.rest)) == Total(false, [v] + vs, Ops(e.rest))
  {
    hide Combine;
    NegationIsSubtraction([v] + vs, Ops(e.rest));
    assert [0] + [] + ([v] + vs) == [0] + ([v] + vs) && [] + ([Minus] + Ops(e.rest)) == [Minus] + Ops(e.rest);
    assert [] + [] + [v] + vs == [v] + vs && [] + Ops(e.rest) == Ops(e.rest);
  }

  /** An operand goes to the output. */
  function TakeOperand(y: Yard, v: Int16): Yard {
    y.(items := y.items + [Val(v)], need := None)
  }

  lemma OperandTaken(env: Env, y: Yard, v: Int16)
    requires ValidEnv(env) && ValidYard(y) && y.need.Some? && OperandMeaning(env, y.need.value) == Ok(v)
    ensures ValidYard(TakeOperand(y, v)) && Outcome(env, TakeOperand(y, v)) == Outcome(env, y)
    ensures |ItemsTokens(y.items)| <= 5 * STACK_MAX - 3
  {
    hide Combine, OperandMeaning, TailMeaning, Run, Runs, ItemsTokens;
    RunMore(y.items, Val(v));
    TokensMore(y.items, Val(v));
    assert Numbers(TakeOperand(y, v)) == Numbers(y) + [v];
  }

  /** An operator goes on the stack, and an operand is due. */
  function PushOperator(y: Yard): Yard
    requires y.tail.More?
  {
    y.(ops := y.ops + [y.tail.op], need := Some(y.tail.operand), tail := y.tail.tail)
  }

  lemma OperatorPushed(env: Env, y: Yard)
    requires ValidEnv(env) && ValidYard(y) && y.need.None? && y.tail.More?
    requires y.ops != [] ==> Precedence(y.ops[|y.ops| - 1]) <= Precedence(y.tail.op)
    ensures ValidYard(PushOperator(y)) && Outcome(env, PushOperator(y)) == Outcome(env, y)
  {
    hide Combine, OperandMeaning, Run, Runs, ItemsTokens;
    assert y.ops + ([y.tail.op] + Ops(y.tail.tail)) == (y.ops + [y.tail.op]) + Ops(y.tail.tail);
    if OperandMeaning(env, y.tail.operand).Ok? && TailMeaning(env, y.tail.tail).Ok? {
      var v, vs := OperandMeaning(env, y.tail.operand).value, TailMeaning(env, y.tail.tail).value;
      assert Numbers(y) + ([v] + vs) == Numbers(y) + [v] + vs;
    }
  }

  /** The operator on top of the stack goes to the output. A waiting leading minus is applied when it
      is the last one. */
  function PopOperator(y: Yard): Yard
    requires y.ops != []
  {
    var n := |y.ops| - 1;
    y.(items := y.items + [Oper(y.ops[n])], ops := y.ops[..n], zero := y.zero && n != 0)
  }

  lemma AppliedToZero(a: Int16)
    ensures Apply(Minus, 0, a) == Negate(a)
  {
  }

  lemma PoppedNumbers(y: Yard)
    requires ValidYard(y) && y.need.None? && y.ops != []
    ensures var n, op := |y.ops|, y.ops[|y.ops| - 1];
            && Fine(Run(y.items), Oper(op)) && |Numbers(y)| == n + 1
            && Numbers(PopOperator(y)) == Numbers(y)[..n - 1] + [Apply(op, Numbers(y)[n - 1], Numbers(y)[n])]
  {
    hide Combine, Run, Runs, ItemsTokens, Apply;
    var n, op, stack := |y.ops|, y.ops[|y.ops| - 1], Run(y.items);
    RunMore(y.items, Oper(op));
    assert Apply(Minus, 0, Numbers(y)[n]) == Negate(Numbers(y)[n]) by {
      AppliedToZero(Numbers(y)[n]);
    }
  }

  /** Popping an operator that binds stronger than the next one, or with none next, keeps the outcome. */
  lemma OperatorPopped(env: Env, y: Yard)
    requires ValidEnv(env) && ValidYard(y) && y.need.None? && y.ops != []
    requires y.tail.More? ==> Precedence(y.tail.op) < Precedence(y.ops[|y.ops| - 1])
    ensures ValidYard(PopOperator(y)) && Outcome(env, PopOperator(y)) == Outcome(env, y)
    ensures |ItemsTokens(y.items)| <= 5 * STACK_MAX - 2
  {
    hide Combine, Run, Runs, ItemsTokens, Apply, OperandMeaning, Exec, Fine, TailMeaning, Numbers;
    var op := y.ops[|y.ops| - 1];
    PoppedNumbers(y);
    RunMore(y.items, Oper(op));
    TokensMore(y.items, Oper(op));
    if TailMeaning(env, y.tail).Ok? {
      PoppedValue(Numbers(y), y.ops, TailMeaning(env, y.tail).value, Ops(y.tail));
    }
  }

  lemma PoppedValue(nums: seq<Int16>, ops: seq<BinOp>, vs: seq<Int16>, rest: seq<BinOp>)
    requires |nums| == |ops| + 1 && |vs| == |rest| && ops != [] && Sorted(ops)
    requires rest != [] ==> Precedence(rest[0]) < Precedence(ops[|ops| - 1])
    ensures var n := |ops|;
            Combine(nums[..n - 1] + [Apply(ops[n - 1], nums[n - 1], nums[n])] + vs, ops[..n - 1] + rest)
            == Combine(nums + vs, ops + rest)
  {
    hide Combine, Apply, Splice, Sorted, Reducible, Precedence;
    var n := |ops|;
    SortedReducible(ops, rest);
    Reduce(nums + vs, ops + rest, n - 1);
    assert (nums + vs)[n - 1] == nums[n - 1] && (nums + vs)[n] == nums[n] && (ops + rest)[n - 1] == ops[n - 1];
    SpliceAtEnd(nums, vs, n - 1, 2, [Apply(ops[n - 1], nums[n - 1], nums[n])]);
    SpliceAtEnd(ops, rest, n - 1, 1, []);
    assert ops[..n - 1] + [] == ops[..n - 1];
  }

  lemma SortedReducible(ops: seq<BinOp>, rest: seq<BinOp>)
    requires ops != [] && Sorted(ops)
    requires rest != [] ==> Precedence(rest[0]) < Precedence(ops[|ops| - 1])
    ensures Reducible(ops + rest, |ops| - 1)
  {
  }

  lemma SpliceAtEnd<T>(a: seq<T>, b: seq<T>, k: nat, n: nat, mid: seq<T>)
    requires k + n == |a|
    ensures Splice(a + b, k, n, mid) == a[..k] + mid + b
  {
  }

  /** When everything is read and popped, the items compute the outcome. */
  lemma YardDone(env: Env, y: Yard)
    requires ValidEnv(env) && ValidYard(y) && y.need.None? && y.tail.End? && y.ops == []
    ensures Runs(y.items) && |Run(y.items)| == 1 && Outcome(env, y) == Ok(Run(y.items)[0])
    ensures |ItemsTokens(y.items)| <= 5 * STACK_MAX
  {
    assert Numbers(y) + [] == Run(y.items);
  }
}
