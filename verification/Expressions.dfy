/** BASIC expressions: their grammar, their tokens, and what they mean. */
module Expressions {
  import opened Bytes

  // ----- Tokens -----

  const TOK_TERMINATOR: Byte := 0x00
  const TOK_STRING: Byte := 0x01
  const TOK_KEYWORD: Byte := 0x02
  const TOK_NUMERIC: Byte := 0x03
  const TOK_OPERATOR: Byte := 0x04
  const TOK_VARIABLE: Byte := 0x05
  const TOK_SEPARATOR: Byte := 0x06
  const TOK_ALLOC: Byte := 0x07
  const TOK_FUNC: Byte := 0x08
  const TOK_REMARK: Byte := 0x09
  const TOK_REGISTER: Byte := 0x0a

  const OP_MINUS: Byte := 0x00
  const OP_PLUS: Byte := 0x01
  const OP_EQUAL: Byte := 0x02
  const OP_LPAREN: Byte := 0x03
  const OP_RPAREN: Byte := 0x04
  const OP_LT: Byte := 0x05
  const OP_GT: Byte := 0x06
  const OP_LTEQ: Byte := 0x07
  const OP_GTEQ: Byte := 0x08
  const OP_MULT: Byte := 0x09

  const NUMERIC_SIZE := 3
  const OP_SIZE := 2
  const REGISTER_SIZE := 2
  const NUM_REGISTERS := 26
  const VARNAME_SIZE := 4

  // ----- Grammar -----

  datatype BinOp = Plus | Minus | Mult

  predicate Letters(s: seq<Byte>) {
    forall i :: 0 <= i < |s| ==> 0x41 <= s[i] <= 0x5a
  }

  type VarName = s: seq<Byte> | 0 < |s| <= VARNAME_SIZE && Letters(s) witness [0x41]

  datatype Var = Register(letter: nat) | Named(name: VarName)

  datatype Operand = Lit(value: Int16) | Scalar(v: Var) | Element(v: Var, index: Expr)

  /** Operands joined by operators, with an optional minus in front of the whole. */
  datatype Expr = Expr(negated: bool, first: Operand, rest: Tail)

  datatype Tail = End | More(op: BinOp, operand: Operand, tail: Tail)

  function Code(op: BinOp): Byte {
    match op
    case Plus => OP_PLUS
    case Minus => OP_MINUS
    case Mult => OP_MULT
  }

  function VarTokens(v: Var): (r: seq<Byte>)
    requires v.Register? ==> v.letter < NUM_REGISTERS
    ensures 2 <= |r|
  {
    match v
    case Register(letter) => [TOK_REGISTER, letter]
    case Named(name) => [TOK_VARIABLE, |name| + 1] + (name + [0])
  }

  predicate ValidVar(v: Var) {
    v.Register? ==> v.letter < NUM_REGISTERS
  }

  predicate ValidOperand(x: Operand) {
    match x
    case Lit(_) => true
    case Scalar(v) => ValidVar(v)
    case Element(v, index) => ValidVar(v) && ValidExpr(index)
  }

  predicate ValidTail(t: Tail) {
    match t
    case End => true
    case More(_, x, t') => ValidOperand(x) && ValidTail(t')
  }

  /** Registers are letters, and every level has at most 16 operands, and so 16 operators. */
  predicate ValidExpr(e: Expr) {
    ValidOperand(e.first) && ValidTail(e.rest) && Length(e.rest) < STACK_MAX
  }

  const STACK_MAX := 16

  function Length(t: Tail): nat {
    match t
    case End => 0
    case More(_, _, t') => 1 + Length(t')
  }

  function OperandTokens(x: Operand): (r: seq<Byte>)
    requires ValidOperand(x)
    ensures 2 <= |r|
  {
    match x
    case Lit(value) => [TOK_NUMERIC] + WordBytes(Pattern(value))
    case Scalar(v) => VarTokens(v)
    case Element(v, index) => VarTokens(v) + [TOK_OPERATOR, OP_LPAREN] + ExprTokens(index) + [TOK_OPERATOR, OP_RPAREN]
  }

  function TailTokens(t: Tail): seq<Byte>
    requires ValidTail(t)
  {
    match t
    case End => []
    case More(op, x, t') => [TOK_OPERATOR, Code(op)] + OperandTokens(x) + TailTokens(t')
  }

  function ExprTokens(e: Expr): (r: seq<Byte>)
    requires ValidExpr(e)
    ensures 2 <= |r|
  {
    (if e.negated then [TOK_OPERATOR, OP_MINUS] else []) + OperandTokens(e.first) + TailTokens(e.rest)
  }

  // ----- The data expressions refer to -----

  /** A 16-bit cell holding a number or the address of an array, and whether an array was declared. */
  datatype Cell = Cell(defined: bool, value: Int16)

  /** Registers A to Z, the named variables in order of definition, and the memory holding arrays. */
  datatype Env = Env(registers: seq<Cell>, context: seq<(VarName, Int16)>, mem: seq<Byte>)

  predicate ValidEnv(env: Env) {
    |env.registers| == NUM_REGISTERS && |env.mem| == 0x1_0000
  }

  const ERROR_UNDEFINED_VAR := 7
  const ERROR_RANGE := 10
  const ERROR_UNDEFINED_ARRAY := 11

  type ErrorCode = e: int | 0 < e < 0x100 witness 1

  datatype Result<+T> = Ok(value: T) | Err(error: ErrorCode)

  /** The first entry with a name; the number of entries if there is none. */
  function NameIndex(context: seq<(VarName, Int16)>, name: VarName): (k: nat)
    ensures k <= |context|
    ensures k < |context| ==> context[k].0 == name
    ensures forall j :: 0 <= j < k ==> context[j].0 != name
  {
    if context == [] || context[0].0 == name then 0 else 1 + NameIndex(context[1..], name)
  }

  /** Where a value is kept: what the source has as a pointer to it. */
  datatype Place = InRegister(letter: nat) | InContext(i: nat) | InMemory(address: Word)

  predicate ValidPlace(env: Env, place: Place) {
    match place
    case InRegister(letter) => letter < NUM_REGISTERS
    case InContext(i) => i < |env.context|
    case InMemory(_) => true
  }

  function At(env: Env, address: int): Byte
    requires ValidEnv(env)
  {
    env.mem[address % 0x1_0000]
  }

  function Load(env: Env, place: Place): Int16
    requires ValidEnv(env) && ValidPlace(env, place)
  {
    match place
    case InRegister(letter) => env.registers[letter].value
    case InContext(i) => env.context[i].1
    case InMemory(a) => Wrap(ToWord(At(env, a), At(env, a + 1)))
  }

  /** The place of a plain variable, if it is defined. */
  function VarPlace(env: Env, v: Var): (r: Option<Place>)
    requires ValidEnv(env) && ValidVar(v)
    ensures r.Some? ==> ValidPlace(env, r.value) && !r.value.InMemory?
  {
    match v
    case Register(letter) => Some(InRegister(letter))
    case Named(name) =>
      var k := NameIndex(env.context, name);
      if k < |env.context| then Some(InContext(k)) else None
  }

  /** The address of the array a variable refers to. */
  function ArrayOf(env: Env, v: Var): Result<Word>
    requires ValidEnv(env) && ValidVar(v)
  {
    match VarPlace(env, v)
    case None => Err(ERROR_UNDEFINED_ARRAY)
    case Some(place) =>
      if place.InRegister? && !env.registers[place.letter].defined then Err(ERROR_UNDEFINED_ARRAY)
      else Ok(Pattern(Load(env, place)))
  }

  /** Element `index` of the array at `a`, counted from 1; the byte after its mark is its size. */
  function ElementPlace(env: Env, a: Word, index: Int16): Result<Place>
    requires ValidEnv(env)
  {
    if index < 1 || index * 2 > At(env, a + 1) then Err(ERROR_RANGE)
    else Ok(InMemory((a + 2 + (index - 1) * 2) % 0x1_0000))
  }

  // ----- Meaning -----

  function Apply(op: BinOp, a: Int16, b: Int16): Int16 {
    match op
    case Plus => Wrap(a + b)
    case Minus => Wrap(a - b)
    case Mult => Wrap(a * b)
  }

  function Negate(a: int): Int16 {
    Wrap(0 - a)
  }

  /** Plus binds weakest, then minus, then times. */
  function Precedence(op: BinOp): nat {
    match op
    case Plus => 1
    case Minus => 2
    case Mult => 4
  }

  /** The operator that is applied last: the leftmost of the weakest ones. */
  function Root(ops: seq<BinOp>): (i: nat)
    requires ops != []
    ensures i < |ops|
    ensures forall j :: 0 <= j < i ==> Precedence(ops[i]) < Precedence(ops[j])
    ensures forall j :: i <= j < |ops| ==> Precedence(ops[i]) <= Precedence(ops[j])
  {
    if |ops| == 1 then 0
    else
      var j := 1 + Root(ops[1..]);
      if Precedence(ops[0]) <= Precedence(ops[j]) then 0 else j
  }

  /** The value of operands joined by operators: equal operators group to the right. */
  function Combine(vals: seq<Int16>, ops: seq<BinOp>): Int16
    requires |vals| == |ops| + 1
    decreases |ops|
  {
    if ops == [] then vals[0]
    else
      var i := Root(ops);
      Apply(ops[i], Combine(vals[..i + 1], ops[..i]), Combine(vals[i + 1..], ops[i + 1..]))
  }

  function Ops(t: Tail): (r: seq<BinOp>)
    ensures |r| == Length(t)
  {
    match t
    case End => []
    case More(op, _, t') => [op] + Ops(t')
  }

  /** The first plus, or the number of operators. */
  function FirstPlus(ops: seq<BinOp>): (i: nat)
    ensures i <= |ops|
    ensures i < |ops| ==> ops[i] == Plus
    ensures forall j :: 0 <= j < i ==> ops[j] != Plus
  {
    if ops == [] || ops[0] == Plus then 0 else 1 + FirstPlus(ops[1..])
  }

  /** A leading minus negates everything up to the first plus. */
  function Total(negated: bool, vals: seq<Int16>, ops: seq<BinOp>): Int16
    requires |vals| == |ops| + 1
  {
    if !negated then Combine(vals, ops)
    else
      var i := FirstPlus(ops);
      if i == |ops| then Negate(Combine(vals, ops))
      else Wrap(Negate(Combine(vals[..i + 1], ops[..i])) + Combine(vals[i + 1..], ops[i + 1..]))
  }

  /** The place of a variable or an array element. */
  function PlaceOf(env: Env, x: Operand): (r: Result<Place>)
    requires ValidEnv(env) && ValidOperand(x) && !x.Lit?
    ensures r.Ok? ==> ValidPlace(env, r.value)
    decreases x, 0
  {
    match x
    case Scalar(v) => (match VarPlace(env, v) case None => Err(ERROR_UNDEFINED_VAR) case Some(place) => Ok(place))
    case Element(v, index) =>
      match Meaning(env, index)
      case Err(e) => Err(e)
      case Ok(i) =>
        match ArrayOf(env, v)
        case Err(e) => Err(e)
        case Ok(a) => ElementPlace(env, a, i)
  }

  function OperandMeaning(env: Env, x: Operand): Result<Int16>
    requires ValidEnv(env) && ValidOperand(x)
    decreases x, 1
  {
    if x.Lit? then Ok(x.value)
    else
      match PlaceOf(env, x)
      case Err(e) => Err(e)
      case Ok(place) => Ok(Load(env, place))
  }

  /** The operands of a tail, or the error of the first one that has none. */
  function TailMeaning(env: Env, t: Tail): (r: Result<seq<Int16>>)
    requires ValidEnv(env) && ValidTail(t)
    ensures r.Ok? ==> |r.value| == Length(t)
    decreases t, 1
  {
    match t
    case End => Ok([])
    case More(_, x, t') =>
      match OperandMeaning(env, x)
      case Err(e) => Err(e)
      case Ok(v) =>
        match TailMeaning(env, t')
        case Err(e) => Err(e)
        case Ok(vs) => Ok([v] + vs)
  }

  /** The value of an expression, or the error of its leftmost operand that has one. */
  function Meaning(env: Env, e: Expr): Result<Int16>
    requires ValidEnv(env) && ValidExpr(e)
    decreases e, 1
  {
    match OperandMeaning(env, e.first)
    case Err(err) => Err(err)
    case Ok(v) =>
      match TailMeaning(env, e.rest)
      case Err(err) => Err(err)
      case Ok(vs) => Ok(Total(e.negated, [v] + vs, Ops(e.rest)))
  }

  // ----- Reduction -----

  lemma RootUnique(ops: seq<BinOp>, i: nat)
    requires i < |ops|
    requires forall j :: 0 <= j < i ==> Precedence(ops[i]) < Precedence(ops[j])
    requires forall j :: i <= j < |ops| ==> Precedence(ops[i]) <= Precedence(ops[j])
    ensures Root(ops) == i
  {
  }

  /** An operator may be applied early when its left neighbour does not bind stronger and its right
      neighbour binds weaker. */
  ghost predicate Reducible(ops: seq<BinOp>, k: nat) {
    && k < |ops|
    && (0 < k ==> Precedence(ops[k - 1]) <= Precedence(ops[k]))
    && (k + 1 < |ops| ==> Precedence(ops[k + 1]) < Precedence(ops[k]))
  }

  /** `s` with `n` elements from `k` on replaced by `mid`. */
  function Splice<T>(s: seq<T>, k: nat, n: nat, mid: seq<T>): (r: seq<T>)
    requires k + n <= |s|
    ensures |r| == |s| - n + |mid|
  {
    s[..k] + mid + s[k + n..]
  }

  lemma SpliceBelow<T>(s: seq<T>, k: nat, n: nat, mid: seq<T>, i: nat)
    requires k + n <= |s| && i <= k
    ensures Splice(s, k, n, mid)[..i] == s[..i]
    ensures Splice(s, k, n, mid)[i..] == Splice(s[i..], k - i, n, mid)
  {
  }

  lemma SpliceAbove<T>(s: seq<T>, k: nat, n: nat, mid: seq<T>, i: nat)
    requires k + n <= i <= |s|
    ensures Splice(s, k, n, mid)[..i - n + |mid|] == Splice(s[..i], k, n, mid)
    ensures Splice(s, k, n, mid)[i - n + |mid|..] == s[i..]
  {
  }

  function ReducedVals(vals: seq<Int16>, op: BinOp, k: nat): (r: seq<Int16>)
    requires k + 1 < |vals|
    ensures |r| == |vals| - 1
  {
    Splice(vals, k, 2, [Apply(op, vals[k], vals[k + 1])])
  }

  function Without(ops: seq<BinOp>, k: nat): (r: seq<BinOp>)
    requires k < |ops|
    ensures |r| == |ops| - 1
    ensures forall j :: 0 <= j < |r| ==> r[j] == ops[if j < k then j else j + 1]
  {
    Splice(ops, k, 1, [])
  }

  lemma CombineAt(vals: seq<Int16>, ops: seq<BinOp>, i: nat)
    requires |vals| == |ops| + 1 && ops != [] && Root(ops) == i
    ensures Combine(vals, ops) == Apply(ops[i], Combine(vals[..i + 1], ops[..i]), Combine(vals[i + 1..], ops[i + 1..]))
  {
    hide Apply, Root;
  }

  /** A reducible operator right of the root: the root stays, the right part is reduced. */
  lemma ReduceRightOf(vals: seq<Int16>, ops: seq<BinOp>, k: nat)
    requires |vals| == |ops| + 1 && Reducible(ops, k) && Root(ops) < k
    ensures var i, vals', ops' := Root(ops), ReducedVals(vals, ops[k], k), Without(ops, k);
            && Root(ops') == i && ops'[i] == ops[i] && Reducible(ops[i + 1..], k - i - 1)
            && vals'[..i + 1] == vals[..i + 1] && ops'[..i] == ops[..i]
            && vals'[i + 1..] == ReducedVals(vals[i + 1..], ops[k], k - i - 1)
            && ops'[i + 1..] == Without(ops[i + 1..], k - i - 1)
  {
    hide Combine, Apply, Root, Splice;
    var i := Root(ops);
    RootUnique(Without(ops, k), i);
    SpliceBelow(vals, k, 2, [Apply(ops[k], vals[k], vals[k + 1])], i + 1);
    SpliceBelow(ops, k, 1, [], i);
    SpliceBelow(ops, k, 1, [], i + 1);
  }

  /** A reducible operator left of the root. */
  lemma ReduceLeftOf(vals: seq<Int16>, ops: seq<BinOp>, k: nat)
    requires |vals| == |ops| + 1 && Reducible(ops, k) && k < Root(ops)
    ensures var i, vals', ops' := Root(ops), ReducedVals(vals, ops[k], k), Without(ops, k);
            && Root(ops') == i - 1 && ops'[i - 1] == ops[i] && Reducible(ops[..i], k)
            && vals'[..i] == ReducedVals(vals[..i + 1], ops[k], k) && ops'[..i - 1] == Without(ops[..i], k)
            && vals'[i..] == vals[i + 1..] && ops'[i..] == ops[i + 1..]
  {
    hide Combine, Apply, Root, Splice;
    var i := Root(ops);
    RootUnique(Without(ops, k), i - 1);
    SpliceAbove(vals, k, 2, [Apply(ops[k], vals[k], vals[k + 1])], i + 1);
    SpliceAbove(ops, k, 1, [], i);
    SpliceAbove(ops, k, 1, [], i + 1);
  }

  /** Applying a reducible operator early does not change the value. */
  lemma {:induction false} Reduce(vals: seq<Int16>, ops: seq<BinOp>, k: nat)
    requires |vals| == |ops| + 1 && Reducible(ops, k)
    ensures Combine(ReducedVals(vals, ops[k], k), Without(ops, k)) == Combine(vals, ops)
    decreases |ops|
  {
    hide Without, ReducedVals, Root, Apply, Combine;
    var i := Root(ops);
    CombineAt(vals, ops, i);
    if i == k {
      ReduceRoot(vals, ops, k);
    } else if i < k {
      ReduceRightOf(vals, ops, k);
      CombineAt(ReducedVals(vals, ops[k], k), Without(ops, k), i);
      Reduce(vals[i + 1..], ops[i + 1..], k - i - 1);
    } else {
      ReduceLeftOf(vals, ops, k);
      CombineAt(ReducedVals(vals, ops[k], k), Without(ops, k), i - 1);
      Reduce(vals[..i + 1], ops[..i], k);
    }
  }

  lemma ReduceRoot(vals: seq<Int16>, ops: seq<BinOp>, k: nat)
    requires |vals| == |ops| + 1 && Reducible(ops, k) && Root(ops) == k
    ensures Combine(ReducedVals(vals, ops[k], k), Without(ops, k)) == Combine(vals, ops)
  {
    assert k == 0 && |ops| == 1;
    assert vals[..1] == [vals[0]] && vals[1..] == [vals[1]] && ops[..0] == [] && ops[1..] == [];
  }

  /** A leading minus is subtraction from zero. */
  lemma NegationIsSubtraction(vals: seq<Int16>, ops: seq<BinOp>)
    requires |vals| == |ops| + 1
    ensures Total(true, vals, ops) == Combine([0] + vals, [Minus] + ops)
  {
    hide Combine, Apply, Root;
    var i := FirstPlus(ops);
    if i == |ops| {
      NoPlus(vals, ops);
    } else {
      PlusIsRoot(vals, ops, i);
      NoPlus(vals[..i + 1], ops[..i]);
    }
  }

  lemma PlusIsRoot(vals: seq<Int16>, ops: seq<BinOp>, i: nat)
    requires |vals| == |ops| + 1 && i < |ops| && ops[i] == Plus && forall j :: 0 <= j < i ==> ops[j] != Plus
    ensures Combine([0] + vals, [Minus] + ops)
            == Wrap(Combine([0] + vals[..i + 1], [Minus] + ops[..i]) + Combine(vals[i + 1..], ops[i + 1..]))
  {
    hide Combine, Root;
    var vals', ops' := [0] + vals, [Minus] + ops;
    RootUnique(ops', i + 1);
    CombineAt(vals', ops', i + 1);
    assert vals'[..i + 2] == [0] + vals[..i + 1] && ops'[..i + 1] == [Minus] + ops[..i];
    assert vals'[i + 2..] == vals[i + 1..] && ops'[i + 2..] == ops[i + 1..];
  }

  lemma NoPlus(vals: seq<Int16>, ops: seq<BinOp>)
    requires |vals| == |ops| + 1 && forall j :: 0 <= j < |ops| ==> ops[j] != Plus
    ensures Combine([0] + vals, [Minus] + ops) == Negate(Combine(vals, ops))
  {
    hide Combine, Root, Wrap;
    var vals', ops' := [0] + vals, [Minus] + ops;
    RootUnique(ops', 0);
    CombineAt(vals', ops', 0);
    assert vals'[..1] == [0] && ops'[..0] == [] && vals'[1..] == vals && ops'[1..] == ops;
    CombineLone(0);
  }

  lemma CombineLone(a: Int16)
    ensures Combine([a], []) == a
  {
  }
}
