/** What expressions are worth, in the arithmetic of integers: a reference for their 16-bit values. */
module Grammar {
  import opened Bytes
  import opened Expressions

  /** Equal in 16 bits. */
  predicate Same16(x: int, y: int) {
    (x - y) % 0x1_0000 == 0
  }

  /** There is one 16-bit number for every integer, and it is what wrapping around gives. */
  lemma WrapExact(x: int, r: Int16)
    ensures Same16(Wrap(x), x)
    ensures Same16(r, x) ==> r == Wrap(x)
  {
    WrapSame(x);
    if Same16(r, x) {
      hide Wrap;
      SameNumber(r, Wrap(x), x);
    }
  }

  lemma WrapSame(x: int)
    ensures Same16(Wrap(x), x)
  {
    assert x == x / 0x1_0000 * 0x1_0000 + x % 0x1_0000;
  }

  lemma SameNumber(r: Int16, s: Int16, x: int)
    requires Same16(r, x) && Same16(s, x)
    ensures r == s
  {
  }

  function First(ops: seq<BinOp>, op: BinOp): (i: nat)
    ensures i <= |ops| && (i < |ops| ==> ops[i] == op) && forall j :: 0 <= j < i ==> ops[j] != op
  {
    if ops == [] || ops[0] == op then 0 else 1 + First(ops[1..], op)
  }

  // sum = difference | difference "+" sum
  // difference = product | product "-" difference
  // product = operand | operand "*" product

  function ProductOf(vals: seq<Int16>): int {
    if vals == [] then 1
    else
      var v: int := vals[0];
      v * ProductOf(vals[1..])
  }

  function DifferenceOf(vals: seq<Int16>, ops: seq<BinOp>): int
    requires |vals| == |ops| + 1
    decreases |ops|
  {
    var i := First(ops, Minus);
    if i == |ops| then ProductOf(vals) else ProductOf(vals[..i + 1]) - DifferenceOf(vals[i + 1..], ops[i + 1..])
  }

  function SumOf(vals: seq<Int16>, ops: seq<BinOp>): int
    requires |vals| == |ops| + 1
    decreases |ops|
  {
    var i := First(ops, Plus);
    if i == |ops| then DifferenceOf(vals, ops)
    else DifferenceOf(vals[..i + 1], ops[..i]) + SumOf(vals[i + 1..], ops[i + 1..])
  }

  /** A leading minus is for the first difference only. */
  function Exact(negated: bool, vals: seq<Int16>, ops: seq<BinOp>): int
    requires |vals| == |ops| + 1
  {
    if !negated then SumOf(vals, ops)
    else
      var i := First(ops, Plus);
      if i == |ops| then -DifferenceOf(vals, ops)
      else -DifferenceOf(vals[..i + 1], ops[..i]) + SumOf(vals[i + 1..], ops[i + 1..])
  }

  // ----- Combine is that value, in 16 bits -----

  lemma SameProduct(v: int, a: int, b: int)
    requires Same16(a, b)
    ensures Same16(v * a, v * b)
  {
    var t := (a - b) / 0x1_0000;
    assert a - b == t * 0x1_0000;
    Factor(v, a, b, t);
  }

  lemma Factor(v: int, a: int, b: int, t: int)
    requires a - b == t * 0x1_0000
    ensures v * a - v * b == v * t * 0x1_0000
  {
    assert v * a - v * b == v * (a - b);
  }

  lemma SameSum(x: int, y: int, a: int, b: int)
    requires Same16(x, a) && Same16(y, b)
    ensures Same16(x + y, a + b) && Same16(x - y, a - b) && Same16(0 - x, -a)
  {
  }

  lemma SameChain(x: int, y: int, z: int)
    requires Same16(x, y) && Same16(y, z)
    ensures Same16(x, z)
  {
  }

  /** What the operators do in 16 bits. */
  lemma ApplyExact(op: BinOp, a: Int16, b: Int16)
    ensures var x: int, y: int := a, b;
            Same16(Apply(op, a, b), match op { case Plus => x + y case Minus => x - y case Mult => x * y })
  {
    var x: int, y: int := a, b;
    WrapExact(x + y, a);
    WrapExact(x - y, a);
    WrapExact(x * y, a);
    hide Wrap, Same16;
  }

  /** The first of the weakest operators is applied last. */
  lemma PlusLast(ops: seq<BinOp>)
    requires First(ops, Plus) < |ops|
    ensures Root(ops) == First(ops, Plus)
  {
    RootUnique(ops, First(ops, Plus));
  }

  lemma MinusLast(ops: seq<BinOp>)
    requires First(ops, Plus) == |ops| && First(ops, Minus) < |ops|
    ensures Root(ops) == First(ops, Minus)
  {
    RootUnique(ops, First(ops, Minus));
  }

  lemma {:induction false} ProductExact(vals: seq<Int16>, ops: seq<BinOp>)
    requires |vals| == |ops| + 1 && forall i :: 0 <= i < |ops| ==> ops[i] == Mult
    ensures Same16(Combine(vals, ops), ProductOf(vals))
    decreases |ops|
  {
    if ops == [] {
      assert vals == [vals[0]] && vals[1..] == [];
      CombineLone(vals[0]);
    } else {
      RootUnique(ops, 0);
      hide Combine, Root, Apply, Same16;
      CombineAt(vals, ops, 0);
      ProductExact(vals[1..], ops[1..]);
      var v: int, a: int := vals[0], Combine(vals[1..], ops[1..]);
      assert vals[..1] == [vals[0]] && ops[..0] == [];
      CombineLone(vals[0]);
      ApplyExact(Mult, vals[0], Combine(vals[1..], ops[1..]));
      SameProduct(v, a, ProductOf(vals[1..]));
      SameChain(Combine(vals, ops), v * a, ProductOf(vals));
    }
  }

  lemma {:induction false} DifferenceExact(vals: seq<Int16>, ops: seq<BinOp>)
    requires |vals| == |ops| + 1 && forall i :: 0 <= i < |ops| ==> ops[i] != Plus
    ensures Same16(Combine(vals, ops), DifferenceOf(vals, ops))
    decreases |ops|
  {
    hide Combine, Root, Apply, Same16, ProductOf, Precedence;
    var i := First(ops, Minus);
    if i == |ops| {
      ProductExact(vals, ops);
    } else {
      MinusLast(ops);
      CombineAt(vals, ops, i);
      ProductExact(vals[..i + 1], ops[..i]);
      DifferenceExact(vals[i + 1..], ops[i + 1..]);
      var x: int, y: int := Combine(vals[..i + 1], ops[..i]), Combine(vals[i + 1..], ops[i + 1..]);
      ApplyExact(Minus, Combine(vals[..i + 1], ops[..i]), Combine(vals[i + 1..], ops[i + 1..]));
      SameSum(x, y, ProductOf(vals[..i + 1]), DifferenceOf(vals[i + 1..], ops[i + 1..]));
      SameChain(Combine(vals, ops), x - y, DifferenceOf(vals, ops));
    }
  }

  /** Without a leading minus the value is that of the sum, in 16 bits. */
  lemma {:induction false} SumExact(vals: seq<Int16>, ops: seq<BinOp>)
    requires |vals| == |ops| + 1
    ensures Same16(Combine(vals, ops), SumOf(vals, ops))
    decreases |ops|
  {
    hide Combine, Root, Apply, Same16, DifferenceOf, Precedence;
    var i := First(ops, Plus);
    if i == |ops| {
      DifferenceExact(vals, ops);
    } else {
      PlusLast(ops);
      CombineAt(vals, ops, i);
      DifferenceExact(vals[..i + 1], ops[..i]);
      SumExact(vals[i + 1..], ops[i + 1..]);
      var x: int, y: int := Combine(vals[..i + 1], ops[..i]), Combine(vals[i + 1..], ops[i + 1..]);
      ApplyExact(Plus, Combine(vals[..i + 1], ops[..i]), Combine(vals[i + 1..], ops[i + 1..]));
      SameSum(x, y, DifferenceOf(vals[..i + 1], ops[..i]), SumOf(vals[i + 1..], ops[i + 1..]));
      SameChain(Combine(vals, ops), x + y, SumOf(vals, ops));
    }
  }

  lemma TotalExact(negated: bool, vals: seq<Int16>, ops: seq<BinOp>)
    requires |vals| == |ops| + 1
    ensures Same16(Total(negated, vals, ops), Exact(negated, vals, ops))
  {
    hide Combine, DifferenceOf, SumOf, Wrap, Same16;
    var i := First(ops, Plus);
    FirstAgrees(ops, i);
    SumExact(vals, ops);
    if i == |ops| {
      DifferenceExact(vals, ops);
      NegateExact(Combine(vals, ops), DifferenceOf(vals, ops));
    } else {
      DifferenceExact(vals[..i + 1], ops[..i]);
      SumExact(vals[i + 1..], ops[i + 1..]);
      var d, t: int := DifferenceOf(vals[..i + 1], ops[..i]), Combine(vals[i + 1..], ops[i + 1..]);
      NegateExact(Combine(vals[..i + 1], ops[..i]), d);
      var m: int := Negate(Combine(vals[..i + 1], ops[..i]));
      SameSum(m, t, -d, SumOf(vals[i + 1..], ops[i + 1..]));
      WrapExact(m + t, 0);
      SameChain(Wrap(m + t), m + t, -d + SumOf(vals[i + 1..], ops[i + 1..]));
    }
  }

  lemma FirstAgrees(ops: seq<BinOp>, i: nat)
    requires i == First(ops, Plus)
    ensures FirstPlus(ops) == i
  {
  }

  lemma NegateExact(x: Int16, a: int)
    requires Same16(x, a)
    ensures Same16(Negate(x), -a)
  {
    hide Wrap, Same16;
    var n: int := x;
    SameSum(n, n, a, a);
    WrapExact(0 - n, 0);
    SameChain(Negate(x), 0 - n, -a);
  }


  // ----- Expressions -----

  /** The operands of an expression, from left to right. */
  function Operands(e: Expr): (xs: seq<Operand>)
    ensures |xs| == 1 + Length(e.rest)
  {
    [e.first] + TailOperands(e.rest)
  }

  function TailOperands(t: Tail): (xs: seq<Operand>)
    ensures |xs| == Length(t)
  {
    match t
    case End => []
    case More(_, x, t') => [x] + TailOperands(t')
  }

  lemma TailCases(env: Env, t: Tail)
    requires ValidEnv(env) && ValidTail(t) && t.More?
    ensures ValidOperand(t.operand) && ValidTail(t.tail)
    ensures var x, r := OperandMeaning(env, t.operand), TailMeaning(env, t.tail);
            TailMeaning(env, t) == if x.Err? then Err(x.error) else if r.Err? then Err(r.error) else Ok([x.value] + r.value)
  {
    hide OperandMeaning, ValidOperand;
  }

  lemma {:induction false} TailEach(env: Env, t: Tail)
    requires ValidEnv(env) && ValidTail(t)
    ensures forall i :: 0 <= i < Length(t) ==> ValidOperand(TailOperands(t)[i])
    ensures TailMeaning(env, t).Ok? ==>
              forall i :: 0 <= i < Length(t) ==> OperandMeaning(env, TailOperands(t)[i]) == Ok(TailMeaning(env, t).value[i])
    ensures TailMeaning(env, t).Err? ==> exists i :: IsFirstError(env, TailOperands(t), i, TailMeaning(env, t).error)
  {
    hide OperandMeaning, ValidOperand;
    if t.More? {
      TailCases(env, t);
      hide TailMeaning;
      TailEach(env, t.tail);
      assert TailOperands(t) == [t.operand] + TailOperands(t.tail);
      if OperandMeaning(env, t.operand).Err? {
        assert IsFirstError(env, TailOperands(t), 0, TailMeaning(env, t).error);
      } else if TailMeaning(env, t.tail).Err? {
        var i :| IsFirstError(env, TailOperands(t.tail), i, TailMeaning(env, t.tail).error);
        assert IsFirstError(env, TailOperands(t), i + 1, TailMeaning(env, t).error);
      }
    }
  }

  /** Operand `i` is the first one without a value. */
  predicate IsFirstError(env: Env, xs: seq<Operand>, i: int, error: int)
    requires ValidEnv(env)
  {
    && 0 <= i < |xs| && (forall j :: 0 <= j <= i ==> ValidOperand(xs[j]))
    && OperandMeaning(env, xs[i]).Err? && OperandMeaning(env, xs[i]).error == error
    && forall j :: 0 <= j < i ==> OperandMeaning(env, xs[j]).Ok?
  }

  /** An expression is worth, in 16 bits, what its operands' values give in the arithmetic of integers; or it
      has the error of its leftmost operand without a value. */
  lemma ValueExact(env: Env, e: Expr)
    requires ValidEnv(env) && ValidExpr(e)
    ensures match Meaning(env, e)
            case Ok(r) =>
              exists vals: seq<Int16> ::
                && |vals| == |Operands(e)|
                && (forall i :: 0 <= i < |vals| ==> ValidOperand(Operands(e)[i]) && OperandMeaning(env, Operands(e)[i]) == Ok(vals[i]))
                && Same16(r, Exact(e.negated, vals, Ops(e.rest)))
            case Err(error) => exists i :: IsFirstError(env, Operands(e), i, error)
  {
    hide OperandMeaning, Total, Exact;
    TailEach(env, e.rest);
    if Meaning(env, e).Ok? {
      var vals := [OperandMeaning(env, e.first).value] + TailMeaning(env, e.rest).value;
      TotalExact(e.negated, vals, Ops(e.rest));
      assert forall i :: 0 <= i < |vals| ==> ValidOperand(Operands(e)[i]) && OperandMeaning(env, Operands(e)[i]) == Ok(vals[i]);
    } else if OperandMeaning(env, e.first).Err? {
      assert IsFirstError(env, Operands(e), 0, Meaning(env, e).error);
    } else {
      var i :| IsFirstError(env, TailOperands(e.rest), i, TailMeaning(env, e.rest).error);
      assert IsFirstError(env, Operands(e), i + 1, Meaning(env, e).error);
    }
  }

  /** So 2 * 3 - 1 is 5 and 10 - 4 - 3 is 9. */
  lemma Samples()
    ensures Combine([2, 3, 1], [Mult, Minus]) == 5 && Combine([10, 4, 3], [Minus, Minus]) == 9
  {
    assert Same16(5, 5) && Same16(9, 9);
    hide Combine, SumOf, Same16;
    SumExact([2, 3, 1], [Mult, Minus]);
    FirstSample();
    SameNumber(Combine([2, 3, 1], [Mult, Minus]), 5, 5);
    SumExact([10, 4, 3], [Minus, Minus]);
    SecondSample();
    SameNumber(Combine([10, 4, 3], [Minus, Minus]), 9, 9);
  }

  lemma FirstSample()
    ensures SumOf([2, 3, 1], [Mult, Minus]) == 5
  {
    var vals: seq<Int16>, ops: seq<BinOp> := [2, 3, 1], [Mult, Minus];
    assert First(ops, Plus) == 2 && First(ops, Minus) == 1;
    assert vals[..2] == [2, 3] && vals[2..] == [1] && ops[2..] == [];
    assert ProductOf([2, 3]) == 6 && DifferenceOf([1], []) == 1;
  }

  lemma SecondSample()
    ensures SumOf([10, 4, 3], [Minus, Minus]) == 9
  {
    var vals: seq<Int16>, ops: seq<BinOp> := [10, 4, 3], [Minus, Minus];
    assert First(ops, Plus) == 2 && First(ops, Minus) == 0;
    assert vals[..1] == [10] && vals[1..] == [4, 3] && ops[1..] == [Minus];
    assert [4, 3][..1] == [4] && [4, 3][1..] == [3] && [Minus][1..] == [];
    assert ProductOf([10]) == 10 && ProductOf([4]) == 4 && DifferenceOf([3], []) == 3;
    assert DifferenceOf([4, 3], [Minus]) == 1;
  }
}
