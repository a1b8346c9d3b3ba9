/** BASIC statements, and a program as a machine: lines, variables and the return stack. */
module Statements {
  import opened Bytes
  import opened Expressions

  const KEYWORD_PRINT: Byte := 1
  const KEYWORD_END: Byte := 5
  const KEYWORD_GOTO: Byte := 6
  const KEYWORD_FOR: Byte := 7
  const KEYWORD_TO: Byte := 8
  const KEYWORD_NEXT: Byte := 9
  const KEYWORD_GOSUB: Byte := 10
  const KEYWORD_RETURN: Byte := 11
  const KEYWORD_DIM: Byte := 12
  const KEYWORD_IF: Byte := 13
  const KEYWORD_THEN: Byte := 14
  const KEYWORD_JUMPTO: Byte := 15
  const KEYWORD_JUMPSUB: Byte := 16

  const ERROR_SYNTAX := 1
  const ERROR_GOTO := 4
  const ERROR_NOT_RUNNING := 5
  const ERROR_VARNAME := 6
  const ERROR_TOO_MANY_VARS := 8
  const ERROR_RETSTACK_EMPTY := 9

  const MAX_VARS := 16
  const RETURN_STACK_LIMIT := 8
  const MEMORY := 0x1_0000

  // ----- Statements -----

  datatype Comparison = Equal | Less | Greater | AtMost | AtLeast

  datatype PrintItem = Text(bytes: seq<Byte>) | Number(e: Expr)

  /** `Jumpto` and `Jumpsub` are what a GOTO and a GOSUB turn themselves into; their target is a line,
      or none if the search found none. */
  datatype Stmt =
    | Finish
    | Remark(text: seq<Byte>)
    | Print(items: seq<PrintItem>)
    | Let(target: Operand, value: Expr)
    | Dim(v: Var, size: Int16)
    | If(left: Expr, comparison: Comparison, right: Expr, body: Stmt)
    | Goto(lineno: Int16)
    | Gosub(lineno: Int16)
    | Jumpto(line: Option<nat>)
    | Jumpsub(line: Option<nat>)
    | Return
    | For(v: Var, start: Int16, limit: Int16)
    | Next(v: Var)

  predicate ValidItem(item: PrintItem) {
    match item
    case Text(bytes) => |bytes| < 0xff && forall i :: 0 <= i < |bytes| ==> bytes[i] != 0
    case Number(e) => ValidExpr(e)
  }

  predicate ValidItems(items: seq<PrintItem>) {
    forall i :: 0 <= i < |items| ==> ValidItem(items[i])
  }

  /** A statement of a program of `n` lines. */
  predicate ValidStmt(n: nat, s: Stmt) {
    match s
    case Remark(text) => |text| < 0xff
    case Print(items) => items != [] && ValidItems(items)
    case Let(target, value) => !target.Lit? && ValidOperand(target) && ValidExpr(value)
    case Dim(v, _) => ValidVar(v)
    case If(left, _, right, body) => ValidExpr(left) && ValidExpr(right) && ValidStmt(n, body)
    case Jumpto(line) => line.Some? ==> line.value < n
    case Jumpsub(line) => line.Some? ==> line.value < n
    case For(v, _, _) => ValidVar(v)
    case Next(v) => ValidVar(v)
    case _ => true
  }

  // ----- State -----

  datatype Line = Line(no: Int16, stmt: Stmt)

  /** Where to return to, and the loop variable if a FOR or NEXT pushed it. */
  datatype Frame = Frame(line: nat, loop: Option<Var>)

  datatype Printed = Word(bytes: seq<Byte>) | Value(n: Int16) | NewLine

  datatype Core = Core(cur: nat, next: Option<nat>, stack: seq<Frame>, env: Env, end: nat, running: bool,
                       out: seq<Printed>)

  ghost predicate ValidCore(n: nat, c: Core) {
    && ValidEnv(c.env) && |c.env.context| <= MAX_VARS && c.end <= MEMORY
    && c.cur < n && (c.next.Some? ==> c.next.value < n)
    && |c.stack| <= RETURN_STACK_LIMIT && forall i :: 0 <= i < |c.stack| ==> c.stack[i].line < n
  }

  // ----- Line numbers -----

  function Back(nos: seq<Int16>, i: nat, n: Int16): (r: Option<nat>)
    requires i < |nos|
    ensures r.Some? ==> r.value < |nos|
  {
    if nos[i] < n then Following(nos, i) else if i == 0 then None else Back(nos, i - 1, n)
  }

  function Ahead(nos: seq<Int16>, i: nat, n: Int16): (r: Option<nat>)
    requires i < |nos|
    ensures r.Some? ==> r.value < |nos|
    decreases |nos| - i
  {
    if nos[i] >= n then Some(i) else if i + 1 == |nos| then None else Ahead(nos, i + 1, n)
  }

  /** The search for a line number, backwards or forwards from the current line. */
  function Search(nos: seq<Int16>, cur: nat, n: Int16): (r: Option<nat>)
    requires cur < |nos|
    ensures r.Some? ==> r.value < |nos|
  {
    if n < nos[cur] then Back(nos, cur, n) else Ahead(nos, cur, n)
  }

  function Following(nos: seq<Int16>, i: nat): (r: Option<nat>)
    ensures r.Some? ==> r.value < |nos|
  {
    if i + 1 < |nos| then Some(i + 1) else None
  }

  ghost predicate Ascending(nos: seq<Int16>) {
    forall i, j :: 0 <= i < j < |nos| ==> nos[i] < nos[j]
  }

  /** The first line with number `n` or above. */
  ghost predicate IsFirstAtLeast(nos: seq<Int16>, n: Int16, r: Option<nat>) {
    match r
    case Some(i) => i < |nos| && nos[i] >= n && (forall j :: 0 <= j < i ==> nos[j] < n)
    case None => forall j :: 0 <= j < |nos| ==> nos[j] < n
  }

  lemma {:induction false} BackFinds(nos: seq<Int16>, i: nat, n: Int16)
    requires Ascending(nos) && i < |nos|
    requires i + 1 < |nos| ==> nos[i + 1] >= n
    requires i + 1 < |nos| || nos[i] >= n
    ensures nos[0] < n ==> IsFirstAtLeast(nos, n, Back(nos, i, n))
    ensures nos[0] >= n ==> Back(nos, i, n) == None
  {
    if nos[i] >= n && 0 < i {
      BackFinds(nos, i - 1, n);
    }
  }

  lemma {:induction false} AheadFinds(nos: seq<Int16>, i: nat, n: Int16)
    requires Ascending(nos) && i < |nos| && (0 < i ==> nos[i - 1] < n)
    ensures IsFirstAtLeast(nos, n, Ahead(nos, i, n))
    decreases |nos| - i
  {
    if nos[i] < n && i + 1 < |nos| {
      AheadFinds(nos, i + 1, n);
    }
  }

  /** On ascending line numbers the search finds the first line at or above its target, wherever it
      starts from, exactly when it may go forwards or the target is above the first line's number.
      Going back to the first line itself, it finds nothing. */
  lemma SearchExact(nos: seq<Int16>, cur: nat, n: Int16)
    requires Ascending(nos) && cur < |nos|
    ensures IsFirstAtLeast(nos, n, Search(nos, cur, n)) <==> nos[cur] <= n || nos[0] < n
    ensures !(nos[cur] <= n || nos[0] < n) ==> Search(nos, cur, n) == None
  {
    if n < nos[cur] {
      BackFinds(nos, cur, n);
    } else if 0 < cur {
      AheadFinds(nos, cur, n);
    } else {
      AheadFinds(nos, 0, n);
    }
  }

  // ----- Variables -----

  function Store(env: Env, place: Place, x: Int16): (r: Env)
    requires ValidEnv(env) && ValidPlace(env, place)
    ensures ValidEnv(r) && |r.context| == |env.context|
  {
    match place
    case InRegister(letter) => env.(registers := env.registers[letter := env.registers[letter].(value := x)])
    case InContext(i) => env.(context := env.context[i := (env.context[i].0, x)])
    case InMemory(a) =>
      env.(mem := env.mem[a := WordBytes(Pattern(x))[0]][(a + 1) % MEMORY := WordBytes(Pattern(x))[1]])
  }

  /** Sets a plain variable, defining it if need be. */
  function Assign(env: Env, v: Var, x: Int16): (r: Result<Env>)
    requires ValidEnv(env) && ValidVar(v)
    ensures r.Ok? ==> ValidEnv(r.value) && (|env.context| <= MAX_VARS ==> |r.value.context| <= MAX_VARS)
  {
    match VarPlace(env, v)
    case Some(place) => Ok(Store(env, place, x))
    case None =>
      if |env.context| == MAX_VARS then Err(ERROR_TOO_MANY_VARS) else Ok(env.(context := env.context + [(v.name, x)]))
  }

  /** The element at an address does not lie in the program text. */
  predicate ClearPlace(text: set<int>, place: Place) {
    place.InMemory? ==> place.address !in text && (place.address + 1) % MEMORY !in text
  }

  /** Evaluation reads no byte of the program text: no array pointer leads into it. */
  predicate ClearOperand(text: set<int>, env: Env, x: Operand)
    requires ValidEnv(env) && ValidOperand(x)
    decreases x, 1
  {
    x.Element? ==>
      && ClearExpr(text, env, x.index)
      && (Meaning(env, x.index).Ok? && ArrayOf(env, x.v).Ok? ==>
            && (ArrayOf(env, x.v).value + 1) % MEMORY !in text
            && (PlaceOf(env, x).Ok? ==> ClearPlace(text, PlaceOf(env, x).value)))
  }

  predicate ClearTail(text: set<int>, env: Env, t: Tail)
    requires ValidEnv(env) && ValidTail(t)
    decreases t, 1
  {
    t.More? ==> ClearOperand(text, env, t.operand) && ClearTail(text, env, t.tail)
  }

  predicate ClearExpr(text: set<int>, env: Env, e: Expr)
    requires ValidEnv(env) && ValidExpr(e)
    decreases e, 1
  {
    ClearOperand(text, env, e.first) && ClearTail(text, env, e.rest)
  }

  // ----- Execution -----

  /** The state after a statement, its text after it, and its error code, or 0. `Stuck` is what the
      source leaves undefined: overrunning the return stack, the variables or the memory, using an
      uninitialised value, or touching the program text through an array pointer. */
  datatype Outcome = Stuck | Done(core: Core, stmt: Stmt, error: int)

  function Compare(comparison: Comparison, left: Int16, right: Int16): bool {
    match comparison
    case Equal => left == right
    case Less => left < right
    case Greater => left > right
    case AtMost => left <= right
    case AtLeast => left >= right
  }

  function Push(c: Core, frame: Frame): Core {
    c.(stack := c.stack + [frame])
  }

  function Pop(c: Core): Core
    requires c.stack != []
  {
    c.(stack := c.stack[..|c.stack| - 1])
  }

  function Top(c: Core): Frame
    requires c.stack != []
  {
    c.stack[|c.stack| - 1]
  }

  function ExecPrint(text: set<int>, c: Core, items: seq<PrintItem>, s: Stmt): (r: Outcome)
    requires ValidEnv(c.env) && ValidItems(items)
    ensures r.Done? ==> r.stmt == s
    decreases |items|
  {
    if items == [] then Done(c.(out := c.out + [NewLine]), s, 0)
    else
      assert ValidItem(items[0]);
      match items[0]
      case Text(bytes) => ExecPrint(text, c.(out := c.out + [Word(bytes)]), items[1..], s)
      case Number(e) =>
        if !ClearExpr(text, c.env, e) then Stuck
        else
          match Meaning(c.env, e)
          case Err(error) => Done(c, s, error)
          case Ok(n) => ExecPrint(text, c.(out := c.out + [Value(n)]), items[1..], s)
  }

  function AssignTo(text: set<int>, c: Core, place: Result<Place>, e: Expr, s: Stmt): (r: Outcome)
    requires ValidEnv(c.env) && ValidExpr(e) && (place.Ok? ==> ValidPlace(c.env, place.value))
    ensures r.Done? ==> r.stmt == s
  {
    match place
    case Err(error) => Done(c, s, error)
    case Ok(p) =>
      if !ClearExpr(text, c.env, e) then Stuck
      else
        match Meaning(c.env, e)
        case Err(error) => Done(c, s, error)
        case Ok(x) => Done(c.(env := Store(c.env, p, x)), s, 0)
  }

  /** An assignment. Where the variable, or one in its index, is undefined, it is first set to 0. */
  function ExecLet(text: set<int>, c: Core, x: Operand, e: Expr, s: Stmt): (r: Outcome)
    requires ValidEnv(c.env) && !x.Lit? && ValidOperand(x) && ValidExpr(e)
    ensures r.Done? ==> r.stmt == s
  {
    if !ClearOperand(text, c.env, x) then Stuck
    else
      var place := PlaceOf(c.env, x);
      if place != Err(ERROR_UNDEFINED_VAR) then AssignTo(text, c, place, e, s)
      else
        match Assign(c.env, x.v, 0)
        case Err(error) => Done(c, s, error)
        case Ok(env) =>
          if !ClearOperand(text, env, x) then Stuck else AssignTo(text, c.(env := env), PlaceOf(env, x), e, s)
  }

  /** An array as allocated: its mark, its size in bytes and its elements. */
  function ArrayBytes(size: Byte): (r: seq<Byte>)
    ensures |r| == 2 + size
  {
    [TOK_ALLOC, size] + seq(size, i => 0)
  }

  function Allocated(c: Core, size: Byte): Core
    requires ValidEnv(c.env) && c.end + 2 + size <= MEMORY
  {
    c.(env := c.env.(mem := Overwrite(c.env.mem, c.end, ArrayBytes(size))), end := c.end + 2 + size)
  }

  /** A new array of `size` bytes at the end of memory, which the variable refers to. */
  function WithArray(c: Core, v: Var, size: Byte): Core
    requires ValidEnv(c.env) && ValidVar(v) && c.end + 2 + size <= MEMORY
  {
    var a, d := Wrap(c.end), Allocated(c, size);
    d.(env := match v
              case Register(letter) => d.env.(registers := d.env.registers[letter := Cell(true, a)])
              case Named(name) => d.env.(context := d.env.context + [(name, a)]))
  }

  /** Declares an array of at most 127 elements. */
  function ExecDim(c: Core, v: Var, size: Int16, s: Stmt): (r: Outcome)
    requires ValidEnv(c.env) && ValidVar(v)
    ensures r.Done? ==> r.stmt == s
  {
    if Pattern(size) > 127 then Done(c, s, ERROR_RANGE)
    else if c.end + 2 + 2 * Pattern(size) > MEMORY || (v.Named? && |c.env.context| >= MAX_VARS) then Stuck
    else Done(WithArray(c, v, 2 * Pattern(size)), s, 0)
  }

  /** The frame on top of the return stack is the loop's own. */
  predicate InLoop(c: Core, v: Var) {
    c.stack != [] && Top(c).loop == Some(v)
  }

  /** FOR sets its variable: to the next value in the loop, else to the first. */
  function ForAssign(c: Core, v: Var, start: Int16): (r: Result<Core>)
    requires ValidEnv(c.env) && ValidVar(v)
    ensures r.Ok? ==> ValidEnv(r.value.env)
  {
    var before := ScalarValue(c.env, v);
    if InLoop(c, v) && before.Err? then Err(ERROR_UNDEFINED_VAR)
    else
      match Assign(c.env, v, if InLoop(c, v) then Wrap(before.value + 1) else start)
      case Err(error) => Err(error)
      case Ok(env) => Ok((if InLoop(c, v) then Pop(c) else c).(env := env))
  }

  /** FOR, on the first entry and at every return from its NEXT. */
  function ExecFor(nos: seq<Int16>, c: Core, v: Var, start: Int16, limit: Int16, s: Stmt): (r: Outcome)
    requires ValidEnv(c.env) && ValidVar(v)
    ensures r.Done? ==> r.stmt == s
  {
    match ForAssign(c, v, start)
    case Err(_) => Stuck
    case Ok(c1) =>
      match ScalarValue(c1.env, v)
      case Err(_) => Stuck
      case Ok(x) =>
        if x >= limit then
          if c.stack == [] then Stuck else Done(c1.(next := Following(nos, Top(c).line)), s, 0)
        else if |c1.stack| >= RETURN_STACK_LIMIT then Stuck
        else Done(Push(c1, Frame(c.cur, Some(v))), s, 0)
  }

  function ScalarValue(env: Env, v: Var): Result<Int16>
    requires ValidEnv(env) && ValidVar(v)
  {
    match VarPlace(env, v)
    case None => Err(ERROR_UNDEFINED_VAR)
    case Some(place) => Ok(Load(env, place))
  }

  function ExecNext(c: Core, v: Var, s: Stmt): Outcome {
    if c.stack == [] then Done(c, s, ERROR_SYNTAX)
    else if Top(c).loop != Some(v) then Done(Pop(c), s, ERROR_SYNTAX)
    else Done(Push(Pop(c), Frame(c.cur, Some(v))).(next := Some(Top(c).line)), s, 0)
  }

  function ExecReturn(nos: seq<Int16>, c: Core, s: Stmt): Outcome {
    if c.stack == [] then Done(c, s, ERROR_RETSTACK_EMPTY)
    else Done(Pop(c).(next := Following(nos, Top(c).line)), s, 0)
  }

  /** A call to a line, which turns the statement into `s`. */
  function ExecCall(c: Core, line: Option<nat>, s: Stmt): Outcome {
    if |c.stack| >= RETURN_STACK_LIMIT then Stuck else Done(Push(c, Frame(c.cur, None)).(next := line), s, 0)
  }

  /** A statement. An IF whose condition holds runs its statement, and where that fails, runs it again:
      the macro around the call evaluates it a second time for the error to return. */
  function Exec(nos: seq<Int16>, text: set<int>, c: Core, s: Stmt): Outcome
    requires ValidCore(|nos|, c) && ValidStmt(|nos|, s)
    decreases s, 0
  {
    match s
    case Finish => Done(c.(running := false), s, 0)
    case Remark(_) => Done(c, s, 0)
    case Print(items) => ExecPrint(text, c, items, s)
    case Let(target, value) => ExecLet(text, c, target, value, s)
    case Dim(v, size) => ExecDim(c, v, size, s)
    case Goto(lineno) => var line := Search(nos, c.cur, lineno); Done(c.(next := line), Jumpto(line), 0)
    case Gosub(lineno) => var line := Search(nos, c.cur, lineno); ExecCall(c, line, Jumpsub(line))
    case Jumpto(line) => Done(c.(next := line), s, 0)
    case Jumpsub(line) => ExecCall(c, line, s)
    case Return => ExecReturn(nos, c, s)
    case For(v, start, limit) => ExecFor(nos, c, v, start, limit, s)
    case Next(v) => ExecNext(c, v, s)
    case If(left, comparison, right, body) =>
      if !ClearExpr(text, c.env, left) || !ClearExpr(text, c.env, right) then Stuck
      else
        match Meaning(c.env, left)
        case Err(error) => Done(c, s, error)
        case Ok(a) =>
          match Meaning(c.env, right)
          case Err(error) => Done(c, s, error)
          case Ok(b) =>
            if !Compare(comparison, a, b) then Done(c, s, 0)
            else
              var first := Exec(nos, text, c, body);
              if first.Stuck? || first.error == 0 then AroundBody(s, first)
              else
                ExecValid(nos, text, c, body);
                AroundBody(s, Exec(nos, text, first.core, body))
  }

  /** The outcome of an IF whose statement ran last with outcome `r`. */
  function AroundBody(s: Stmt, r: Outcome): Outcome
    requires s.If?
  {
    if r.Stuck? then Stuck else r.(stmt := s.(body := r.stmt))
  }

  /** Still at the same line of the same run. */
  predicate Same(c: Core, c': Core) {
    c'.cur == c.cur && c'.running == c.running
  }

  lemma {:induction false} PrintValid(n: nat, text: set<int>, c: Core, items: seq<PrintItem>, s: Stmt)
    requires ValidCore(n, c) && ValidItems(items)
    ensures var r := ExecPrint(text, c, items, s); r.Done? ==> ValidCore(n, r.core) && r.stmt == s && Same(c, r.core)
    decreases |items|
  {
    hide Meaning, ClearExpr, ValidExpr;
    if items != [] {
      if items[0].Text? {
        PrintValid(n, text, c.(out := c.out + [Word(items[0].bytes)]), items[1..], s);
      } else if Meaning(c.env, items[0].e).Ok? {
        PrintValid(n, text, c.(out := c.out + [Value(Meaning(c.env, items[0].e).value)]), items[1..], s);
      }
    }
  }

  lemma LetValid(n: nat, text: set<int>, c: Core, x: Operand, e: Expr, s: Stmt)
    requires ValidCore(n, c) && !x.Lit? && ValidOperand(x) && ValidExpr(e)
    ensures var r := ExecLet(text, c, x, e, s); r.Done? ==> ValidCore(n, r.core) && r.stmt == s && Same(c, r.core)
  {
    hide Meaning, ClearExpr, ClearOperand, PlaceOf, Store, Assign, ValidExpr, ValidOperand;
  }

  lemma DimValid(n: nat, c: Core, v: Var, size: Int16, s: Stmt)
    requires ValidCore(n, c) && ValidVar(v)
    ensures var r := ExecDim(c, v, size, s); r.Done? ==> ValidCore(n, r.core) && r.stmt == s && Same(c, r.core)
  {
  }

  lemma ForValid(nos: seq<Int16>, c: Core, v: Var, start: Int16, limit: Int16, s: Stmt)
    requires ValidCore(|nos|, c) && ValidVar(v)
    ensures ForAssign(c, v, start).Ok? ==> ValidCore(|nos|, ForAssign(c, v, start).value)
    ensures var r := ExecFor(nos, c, v, start, limit, s);
            r.Done? ==> ValidCore(|nos|, r.core) && r.stmt == s && Same(c, r.core) && r.error == 0
  {
    hide Assign, ScalarValue;
  }

  /** A FOR that is defined sets its variable, and then loops or leaves. */
  lemma ForCases(nos: seq<Int16>, c: Core, v: Var, start: Int16, limit: Int16, s: Stmt)
    requires ValidCore(|nos|, c) && ValidVar(v) && ExecFor(nos, c, v, start, limit, s).Done?
    ensures ForAssign(c, v, start).Ok? && ValidCore(|nos|, ForAssign(c, v, start).value)
    ensures var c1 := ForAssign(c, v, start).value;
            && c1.cur == c.cur && ScalarValue(c1.env, v).Ok?
            && (ScalarValue(c1.env, v).value >= limit ==>
                  && c.stack != [] && Top(c).line < |nos|
                  && ExecFor(nos, c, v, start, limit, s) == Done(c1.(next := Following(nos, Top(c).line)), s, 0))
            && (ScalarValue(c1.env, v).value < limit ==>
                  && |c1.stack| < RETURN_STACK_LIMIT
                  && ExecFor(nos, c, v, start, limit, s) == Done(Push(c1, Frame(c1.cur, Some(v))), s, 0))
  {
    hide Assign, ScalarValue;
  }

  /** A defined assignment goes to where its target is, at once or after the variable is set to 0. */
  lemma LetCases(text: set<int>, c: Core, x: Operand, e: Expr, s: Stmt)
    requires ValidEnv(c.env) && !x.Lit? && ValidOperand(x) && ValidExpr(e) && ExecLet(text, c, x, e, s).Done?
    ensures ClearOperand(text, c.env, x)
    ensures PlaceOf(c.env, x) != Err(ERROR_UNDEFINED_VAR) ==>
              ExecLet(text, c, x, e, s) == AssignTo(text, c, PlaceOf(c.env, x), e, s)
    ensures PlaceOf(c.env, x) == Err(ERROR_UNDEFINED_VAR) ==>
              var a := Assign(c.env, x.v, 0);
              && (a.Err? ==> ExecLet(text, c, x, e, s) == Done(c, s, a.error))
              && (a.Ok? ==>
                    && ValidEnv(a.value) && ClearOperand(text, a.value, x)
                    && ExecLet(text, c, x, e, s) == AssignTo(text, c.(env := a.value), PlaceOf(a.value, x), e, s))
  {
    hide ClearOperand, PlaceOf, Assign, AssignTo, ValidExpr, ValidOperand;
  }

  /** What is stored at a place is read there. */
  lemma StoreLoads(env: Env, place: Place, x: Int16)
    requires ValidEnv(env) && ValidPlace(env, place)
    ensures ValidPlace(Store(env, place, x), place) && Load(Store(env, place, x), place) == x
  {
    hide Wrap, Pattern, ToWord, WordBytes;
    if place.InMemory? {
      assert (place.address + 1) % MEMORY != place.address;
    }
  }

  /** After an assignment without an error its target holds the value of the expression, and nothing but
      the variables has changed. An undefined target counts as 0 while the expression is evaluated. */
  lemma LetStores(text: set<int>, c: Core, x: Operand, e: Expr, s: Stmt)
    requires ValidEnv(c.env) && !x.Lit? && ValidOperand(x) && ValidExpr(e)
    requires var r := ExecLet(text, c, x, e, s); r.Done? && r.error == 0
    ensures ValidVar(x.v) && (PlaceOf(c.env, x) == Err(ERROR_UNDEFINED_VAR) ==> Assign(c.env, x.v, 0).Ok?)
    ensures var env := if PlaceOf(c.env, x) == Err(ERROR_UNDEFINED_VAR) then Assign(c.env, x.v, 0).value else c.env;
            var r := ExecLet(text, c, x, e, s);
            && r.core == c.(env := r.core.env) && ValidEnv(r.core.env)
            && PlaceOf(env, x).Ok? && ValidPlace(r.core.env, PlaceOf(env, x).value)
            && Meaning(env, e) == Ok(Load(r.core.env, PlaceOf(env, x).value))
  {
    hide ClearOperand, ClearExpr, PlaceOf, Assign, Meaning, ValidExpr, ValidOperand, Store, Load;
    OperandHasVar(x);
    var undefined := PlaceOf(c.env, x) == Err(ERROR_UNDEFINED_VAR);
    if !undefined || Assign(c.env, x.v, 0).Ok? {
      var env := if undefined then Assign(c.env, x.v, 0).value else c.env;
      if PlaceOf(env, x).Ok? && Meaning(env, e).Ok? {
        StoreLoads(env, PlaceOf(env, x).value, Meaning(env, e).value);
      }
    }
  }

  lemma PlaceClear(text: set<int>, env: Env, x: Operand)
    requires ValidEnv(env) && ValidOperand(x) && !x.Lit? && ClearOperand(text, env, x) && PlaceOf(env, x).Ok?
    ensures ClearPlace(text, PlaceOf(env, x).value)
  {
    hide Meaning, ClearExpr, ValidExpr, ElementPlace;
  }

  /** Statements keep the machine valid, and one that fails is not rewritten. */
  lemma {:induction false} ExecValid(nos: seq<Int16>, text: set<int>, c: Core, s: Stmt)
    requires ValidCore(|nos|, c) && ValidStmt(|nos|, s)
    ensures var r := Exec(nos, text, c, s);
            && (r.Done? ==> ValidCore(|nos|, r.core) && ValidStmt(|nos|, r.stmt) && r.core.cur == c.cur)
            && (r.Done? && r.error != 0 ==> r.stmt == s && r.core.running == c.running)
    decreases s, 1
  {
    hide Meaning, ClearExpr, ExecPrint, ExecLet, ExecDim, ExecFor, Search, ValidOperand, ValidExpr, ValidEnv;
    match s {
      case Print(items) => PrintValid(|nos|, text, c, items, s);
      case Let(target, value) => LetValid(|nos|, text, c, target, value, s);
      case Dim(v, size) => DimValid(|nos|, c, v, size, s);
      case For(v, start, limit) => ForValid(nos, c, v, start, limit, s);
      case If(_, _, _, body) =>
        ExecValid(nos, text, c, body);
        var first := Exec(nos, text, c, body);
        if first.Done? && first.error != 0 {
          ExecValid(nos, text, first.core, body);
        }
      case _ =>
    }
  }

  // ----- Statements that fail -----

  /** Printing that fails has printed what came before. */
  lemma {:induction false} PrintGrows(text: set<int>, c: Core, items: seq<PrintItem>, s: Stmt)
    requires ValidEnv(c.env) && ValidItems(items)
    ensures var r := ExecPrint(text, c, items, s);
            r.Done? ==> r.core == c.(out := r.core.out) && |r.core.out| >= |c.out|
    decreases |items|
  {
    hide Meaning, ClearExpr, ValidExpr;
    if items != [] {
      assert ValidItem(items[0]);
      if items[0].Text? {
        PrintGrows(text, c.(out := c.out + [Word(items[0].bytes)]), items[1..], s);
      } else if Meaning(c.env, items[0].e).Ok? {
        PrintGrows(text, c.(out := c.out + [Value(Meaning(c.env, items[0].e).value)]), items[1..], s);
      }
    }
  }

  /** The first item to print cannot be evaluated. */
  predicate FailsFirst(env: Env, items: seq<PrintItem>)
    requires ValidEnv(env) && items != [] && ValidItems(items)
  {
    assert ValidItem(items[0]);
    items[0].Number? && Meaning(env, items[0].e).Err?
  }

  lemma PrintFails(text: set<int>, c: Core, items: seq<PrintItem>, s: Stmt)
    requires ValidEnv(c.env) && items != [] && ValidItems(items)
    ensures var r := ExecPrint(text, c, items, s);
            r.Done? ==> r.core == c.(out := r.core.out)
                        && (if FailsFirst(c.env, items) then r.core.out == c.out else |r.core.out| > |c.out|)
  {
    hide Meaning, ClearExpr, ValidExpr;
    assert ValidItem(items[0]);
    if items[0].Text? {
      PrintGrows(text, c.(out := c.out + [Word(items[0].bytes)]), items[1..], s);
    } else if Meaning(c.env, items[0].e).Ok? {
      PrintGrows(text, c.(out := c.out + [Value(Meaning(c.env, items[0].e).value)]), items[1..], s);
    }
  }

  lemma AssignAgain(env: Env, v: Var, x: Int16)
    requires ValidEnv(env) && ValidVar(v) && Assign(env, v, x).Ok?
    ensures Assign(Assign(env, v, x).value, v, x) == Assign(env, v, x)
  {
    var env' := Assign(env, v, x).value;
    match v {
      case Register(letter) => assert env'.registers[letter := env'.registers[letter].(value := x)] == env'.registers;
      case Named(name) =>
        var k := NameIndex(env.context, name);
        IndexUnique(env'.context, name, if k < |env.context| then k else |env.context|);
        var i := NameIndex(env'.context, name);
        assert env'.context[i := (env'.context[i].0, x)] == env'.context;
    }
  }

  lemma IndexUnique(context: seq<(VarName, Int16)>, name: VarName, k: nat)
    requires k <= |context| && (k < |context| ==> context[k].0 == name)
    requires forall j :: 0 <= j < k ==> context[j].0 != name
    ensures NameIndex(context, name) == k
  {
  }

  /** An assignment that fails, fails again: a variable it has defined stays 0. */
  lemma LetAgain(text: set<int>, c: Core, x: Operand, e: Expr, s: Stmt)
    requires ValidEnv(c.env) && !x.Lit? && ValidOperand(x) && ValidExpr(e)
    requires var r := ExecLet(text, c, x, e, s); r.Done? && r.error != 0
    ensures var r := ExecLet(text, c, x, e, s); ValidEnv(r.core.env) && ExecLet(text, r.core, x, e, s) == r
  {
    hide ClearOperand, ClearExpr, PlaceOf, Assign, Meaning, ValidExpr, ValidOperand;
    OperandHasVar(x);
    if PlaceOf(c.env, x) == Err(ERROR_UNDEFINED_VAR) && Assign(c.env, x.v, 0).Ok? {
      AssignAgain(c.env, x.v, 0);
    }
  }

  lemma OperandHasVar(x: Operand)
    requires ValidOperand(x) && !x.Lit?
    ensures ValidVar(x.v)
  {
  }

  /** The statement at the end of a chain of IFs. */
  function Innermost(s: Stmt): Stmt {
    if s.If? then Innermost(s.body) else s
  }

  /** How often an IF tries its innermost statement while that keeps failing. */
  function Tries(s: Stmt): (n: nat)
    ensures n > 0
  {
    if s.If? then 2 * Tries(s.body) else 1
  }

  /** All conditions on the way to the innermost statement can be evaluated. */
  predicate Reached(n: nat, env: Env, s: Stmt)
    requires ValidEnv(env) && ValidStmt(n, s)
  {
    s.If? ==> Meaning(env, s.left).Ok? && Meaning(env, s.right).Ok? && Reached(n, env, s.body)
  }

  /** What a statement leaves behind that has failed. */
  ghost predicate Failed(n: nat, c: Core, s: Stmt, r: Outcome)
    requires ValidCore(n, c) && ValidStmt(n, s) && ValidStmt(n, Innermost(s))
  {
    var x := Innermost(s);
    && r.Done? && r.stmt == s && ValidCore(n, r.core)
    && (!x.Next? ==> r.core == c.(out := r.core.out))
    && (!x.Print? || !Reached(n, c.env, s) ==> r.core.out == c.out)
    && (x.Print? && Reached(n, c.env, s) ==>
          if FailsFirst(c.env, x.items) then r.core.out == c.out else |r.core.out| > |c.out|)
    && (x.Next? ==>
          if Reached(n, c.env, s) then r.core == c.(stack := Dropped(c.stack, Tries(s))) && r.error == ERROR_SYNTAX
          else r.core == c)
  }

  function Dropped(stack: seq<Frame>, k: nat): seq<Frame> {
    if |stack| <= k then [] else stack[..|stack| - k]
  }

  lemma InnermostValid(n: nat, s: Stmt)
    requires ValidStmt(n, s)
    ensures ValidStmt(n, Innermost(s)) && !Innermost(s).If?
  {
    hide ValidOperand, ValidExpr;
  }

  lemma FailedTwice(n: nat, c: Core, s: Stmt, first: Outcome, second: Outcome)
    requires ValidCore(n, c) && ValidStmt(n, s) && s.If? && Meaning(c.env, s.left).Ok? && Meaning(c.env, s.right).Ok?
    requires ValidStmt(n, Innermost(s)) && !Innermost(s).Let?
    requires Failed(n, c, s.body, first) && Failed(n, first.core, s.body, second)
    ensures Failed(n, c, s, AroundBody(s, second))
  {
    hide Meaning, ValidOperand, ValidExpr, FailsFirst, ValidEnv, Dropped;
    DroppedTwice(c.stack, Tries(s.body));
  }

  lemma DroppedTwice(stack: seq<Frame>, k: nat)
    ensures Dropped(Dropped(stack, k), k) == Dropped(stack, 2 * k)
  {
  }

  lemma {:induction false} FailureLeaves(nos: seq<Int16>, text: set<int>, c: Core, s: Stmt)
    requires ValidCore(|nos|, c) && ValidStmt(|nos|, s) && !Innermost(s).Let?
    requires var r := Exec(nos, text, c, s); r.Done? && r.error != 0
    ensures ValidStmt(|nos|, Innermost(s)) && Failed(|nos|, c, s, Exec(nos, text, c, s))
    decreases s
  {
    hide Meaning, ClearExpr, ExecPrint, ExecLet, Search, ValidOperand, ValidExpr, FailsFirst, ValidEnv;
    InnermostValid(|nos|, s);
    ExecValid(nos, text, c, s);
    match s {
      case Print(items) => PrintFails(text, c, items, s);
      case For(v, start, limit) => ForValid(nos, c, v, start, limit, s);
      case If(left, _, right, body) =>
        if Meaning(c.env, left).Ok? && Meaning(c.env, right).Ok? {
          var first := Exec(nos, text, c, body);
          ExecValid(nos, text, c, body);
          FailureLeaves(nos, text, c, body);
          FailureLeaves(nos, text, first.core, body);
          FailedTwice(|nos|, c, s, first, Exec(nos, text, first.core, body));
        }
      case _ =>
    }
  }

  // An assignment under IFs may set a variable that their conditions read.

  /** The variables after an assignment that has failed: its target, if it was undefined, has been set to 0. */
  function AfterFailedLet(env: Env, x: Operand): (r: Env)
    requires ValidEnv(env) && ValidOperand(x) && !x.Lit?
    ensures ValidEnv(r)
  {
    OperandHasVar(x);
    if PlaceOf(env, x) == Err(ERROR_UNDEFINED_VAR) && Assign(env, x.v, 0).Ok? then Assign(env, x.v, 0).value else env
  }

  /** The error that a chain of IFs ends with, if its assignment changes nothing any more: that of its first
      condition without a value, none if a condition is false, else that of the assignment. None if undefined. */
  function Ends(n: nat, text: set<int>, c: Core, s: Stmt): Option<int>
    requires ValidEnv(c.env) && ValidStmt(n, s) && Innermost(s).Let?
    decreases s
  {
    if !s.If? then
      var r := ExecLet(text, c, s.target, s.value, s);
      if r.Stuck? then None else Some(r.error)
    else if !ClearExpr(text, c.env, s.left) || !ClearExpr(text, c.env, s.right) then None
    else
      match (Meaning(c.env, s.left), Meaning(c.env, s.right))
      case (Err(error), _) => Some(error)
      case (Ok(_), Err(error)) => Some(error)
      case (Ok(a), Ok(b)) => if Compare(s.comparison, a, b) then Ends(n, text, c, s.body) else Some(0)
  }

  /** The assignment at the end of the chain fails and changes nothing any more. */
  ghost predicate Settled(n: nat, text: set<int>, c: Core, s: Stmt)
    requires ValidCore(n, c) && ValidStmt(n, s) && ValidStmt(n, Innermost(s)) && Innermost(s).Let?
  {
    var x := Innermost(s);
    var r := ExecLet(text, c, x.target, x.value, x);
    r.Done? && r.error != 0 && r.core == c
  }

  lemma {:induction false} SettledRun(nos: seq<Int16>, text: set<int>, c: Core, s: Stmt)
    requires ValidCore(|nos|, c) && ValidStmt(|nos|, s) && ValidStmt(|nos|, Innermost(s)) && Innermost(s).Let?
    requires Settled(|nos|, text, c, s)
    ensures Exec(nos, text, c, s) == match Ends(|nos|, text, c, s) { case None => Stuck case Some(error) => Done(c, s, error) }
    decreases s
  {
    hide Meaning, ClearExpr, ExecLet, ValidOperand, ValidExpr, ValidEnv;
    if s.If? {
      SettledRun(nos, text, c, s.body);
    }
  }

  /** A chain that has failed left everything as it was if it did not reach its assignment; else the
      assignment is settled, and the error is that of the second run of what is under the first IF. */
  lemma {:induction false} FailedLet(nos: seq<Int16>, text: set<int>, c: Core, s: Stmt)
    requires ValidCore(|nos|, c) && ValidStmt(|nos|, s) && ValidStmt(|nos|, Innermost(s)) && Innermost(s).Let?
    requires var r := Exec(nos, text, c, s); r.Done? && r.error != 0
    ensures !Reached(|nos|, c.env, s) ==> Exec(nos, text, c, s).core == c
    ensures Reached(|nos|, c.env, s) ==>
              var c1 := c.(env := AfterFailedLet(c.env, Innermost(s).target));
              && ValidCore(|nos|, c1) && Settled(|nos|, text, c1, s)
              && Exec(nos, text, c, s).core == c1 && Exec(nos, text, c, s).stmt == s
              && Some(Exec(nos, text, c, s).error) == Ends(|nos|, text, c1, if s.If? then s.body else s)
    decreases s
  {
    hide Meaning, ClearExpr, ValidOperand, ValidExpr, ValidEnv;
    ExecValid(nos, text, c, s);
    if !s.If? {
      LetLeaves(text, c, s.target, s.value, s);
    } else if Meaning(c.env, s.left).Ok? && Meaning(c.env, s.right).Ok? {
      ExecValid(nos, text, c, s.body);
      FailedLet(nos, text, c, s.body);
      if Reached(|nos|, c.env, s.body) {
        SettledRun(nos, text, Exec(nos, text, c, s.body).core, s.body);
      }
    }
  }

  lemma LetLeaves(text: set<int>, c: Core, x: Operand, e: Expr, s: Stmt)
    requires ValidEnv(c.env) && !x.Lit? && ValidOperand(x) && ValidExpr(e)
    requires var r := ExecLet(text, c, x, e, s); r.Done? && r.error != 0
    ensures var r, c1 := ExecLet(text, c, x, e, s), c.(env := AfterFailedLet(c.env, x));
            r.core == c1 && ExecLet(text, c1, x, e, s) == r
  {
    hide ClearOperand, ClearExpr, PlaceOf, Assign, Meaning, ValidExpr, ValidOperand;
    OperandHasVar(x);
    LetAgain(text, c, x, e, s);
  }

  /** A statement that fails would fail again in the same way: it does not reach its innermost statement; or
      that is no PRINT that prints something, no NEXT with more entries on the return stack than it is tried,
      and no assignment under IFs after which the first condition decides otherwise. */
  predicate FailsAlike(n: nat, text: set<int>, c: Core, s: Stmt)
    requires ValidEnv(c.env) && ValidStmt(n, s) && ValidStmt(n, Innermost(s))
  {
    Reached(n, c.env, s) ==>
      match Innermost(s)
      case Print(items) => FailsFirst(c.env, items)
      case Next(_) => |c.stack| <= Tries(s)
      case Let(target, _) =>
        var c1 := c.(env := AfterFailedLet(c.env, target));
        s.If? ==> Ends(n, text, c1, s) == Ends(n, text, c1, s.body)
      case _ => true
  }

  /** The leaf case of the next lemma. */
  lemma LeafAgain(nos: seq<Int16>, text: set<int>, c: Core, s: Stmt)
    requires ValidCore(|nos|, c) && ValidStmt(|nos|, s) && !s.If?
    requires var r := Exec(nos, text, c, s); r.Done? && r.error != 0 && FailsAlike(|nos|, text, c, s)
    ensures var r := Exec(nos, text, c, s); ValidCore(|nos|, r.core) && Exec(nos, text, r.core, s) == r
  {
    hide Meaning, ClearExpr, ExecPrint, ExecLet, Search, ValidOperand, ValidExpr, FailsFirst;
    ExecValid(nos, text, c, s);
    match s {
      case Print(items) => PrintFails(text, c, items, s);
      case Let(target, value) => LetAgain(text, c, target, value, s);
      case For(v, start, limit) => ForValid(nos, c, v, start, limit, s);
      case _ =>
    }
  }

  lemma {:induction false} FailsAgain(nos: seq<Int16>, text: set<int>, c: Core, s: Stmt)
    requires ValidCore(|nos|, c) && ValidStmt(|nos|, s) && ValidStmt(|nos|, Innermost(s))
    requires s.If? ==> !Innermost(s).Let?
    requires var r := Exec(nos, text, c, s); r.Done? && r.error != 0 && FailsAlike(|nos|, text, c, s)
    ensures var r := Exec(nos, text, c, s); ValidCore(|nos|, r.core) && Exec(nos, text, r.core, s) == r
    decreases s
  {
    hide Meaning, ClearExpr, ExecPrint, ExecLet, ExecFor, ExecDim, Search, ValidOperand, ValidExpr, FailsFirst, ValidEnv;
    ExecValid(nos, text, c, s);
    if !s.If? {
      LeafAgain(nos, text, c, s);
    } else if Meaning(c.env, s.left).Ok? && Meaning(c.env, s.right).Ok? {
      var first := Exec(nos, text, c, s.body);
      ExecValid(nos, text, c, s.body);
      FailureLeaves(nos, text, c, s.body);
      FailureLeaves(nos, text, first.core, s.body);
      FailsAgain(nos, text, first.core, s.body);
    }
  }

  /** The case of an assignment under IFs. */
  lemma ChainAgain(nos: seq<Int16>, text: set<int>, c: Core, s: Stmt)
    requires ValidCore(|nos|, c) && ValidStmt(|nos|, s) && ValidStmt(|nos|, Innermost(s)) && s.If? && Innermost(s).Let?
    requires var r := Exec(nos, text, c, s); r.Done? && r.error != 0
    ensures var r := Exec(nos, text, c, s);
            ValidCore(|nos|, r.core) && (Exec(nos, text, r.core, s) == r <==> FailsAlike(|nos|, text, c, s))
  {
    hide Exec, Meaning, ClearExpr, ValidOperand, ValidExpr, ValidEnv, ExecLet, Ends, AfterFailedLet;
    FailedLet(nos, text, c, s);
    if Reached(|nos|, c.env, s) {
      SettledRun(nos, text, Exec(nos, text, c, s).core, s);
    }
  }

  /** A statement that fails does nothing more when it is run again if and only if it fails alike. */
  lemma SecondRunExact(nos: seq<Int16>, text: set<int>, c: Core, s: Stmt)
    requires ValidCore(|nos|, c) && ValidStmt(|nos|, s)
    requires var r := Exec(nos, text, c, s); r.Done? && r.error != 0
    ensures ValidStmt(|nos|, Innermost(s)) && ValidCore(|nos|, Exec(nos, text, c, s).core)
    ensures var r := Exec(nos, text, c, s); Exec(nos, text, r.core, s) == r <==> FailsAlike(|nos|, text, c, s)
  {
    hide Exec, Meaning, ValidOperand, ValidExpr, FailsFirst, ValidEnv, Ends, AfterFailedLet;
    InnermostValid(|nos|, s);
    ExecValid(nos, text, c, s);
    var r := Exec(nos, text, c, s);
    if s.If? && Innermost(s).Let? {
      ChainAgain(nos, text, c, s);
    } else if FailsAlike(|nos|, text, c, s) {
      FailsAgain(nos, text, c, s);
    } else {
      FailureLeaves(nos, text, c, s);
      if Exec(nos, text, r.core, s) == r {
        FailureLeaves(nos, text, r.core, s);
      }
    }
  }

  /** So an IF does what its statement does once if and only if that does not fail, or fails alike. */
  lemma IfOnce(nos: seq<Int16>, text: set<int>, c: Core, s: Stmt)
    requires ValidCore(|nos|, c) && ValidStmt(|nos|, s) && s.If?
    requires ClearExpr(text, c.env, s.left) && ClearExpr(text, c.env, s.right)
    requires match (Meaning(c.env, s.left), Meaning(c.env, s.right)) {
      case (Ok(a), Ok(b)) => Compare(s.comparison, a, b)
      case _ => false
    }
    ensures ValidStmt(|nos|, s.body) && ValidStmt(|nos|, Innermost(s.body))
    ensures var first := Exec(nos, text, c, s.body);
            Exec(nos, text, c, s) == AroundBody(s, first) <==>
              first.Stuck? || first.error == 0 || FailsAlike(|nos|, text, c, s.body)
  {
    hide Meaning, ClearExpr, ValidOperand, ValidExpr, FailsFirst, ValidEnv, FailsAlike;
    InnermostValid(|nos|, s.body);
    var first := Exec(nos, text, c, s.body);
    if first.Done? && first.error != 0 {
      ExecValid(nos, text, c, s.body);
      SecondRunExact(nos, text, c, s.body);
      var second := Exec(nos, text, first.core, s.body);
      if second.Done? && second.error != 0 {
        ExecValid(nos, text, first.core, s.body);
      }
    }
  }

  const ONE: Expr := Expr(false, Lit(1), End)

  /** Where it fails otherwise: at line 30 of 10 FOR A = 1 TO 2, 20 FOR B = 1 TO 2, 30 IF 1 = 1 THEN NEXT A,
      the NEXT alone drops the inner loop and is an error; under the IF it goes back to line 10. */
  lemma NextTwice(nos: seq<Int16>, text: set<int>, c: Core, v: Var, w: Option<Var>, rest: seq<Frame>, f: nat, g: nat)
    requires ValidCore(|nos|, c) && ValidVar(v) && c.stack == rest + [Frame(f, Some(v)), Frame(g, w)] && w != Some(v)
    ensures Exec(nos, text, c, Next(v)) == Done(c.(stack := rest + [Frame(f, Some(v))]), Next(v), ERROR_SYNTAX)
    ensures var s := If(ONE, Equal, ONE, Next(v));
            Exec(nos, text, c, s) == Done(c.(next := Some(f), stack := rest + [Frame(c.cur, Some(v))]), s, 0)
  {
    assert c.stack[..|c.stack| - 1] == rest + [Frame(f, Some(v))];
    assert (rest + [Frame(f, Some(v))])[..|rest|] == rest;
    assert Meaning(c.env, ONE) == Ok(1);
  }

  lemma TextThenFailure(text: set<int>, c: Core, bytes: seq<Byte>, e: Expr, s: Stmt)
    requires ValidEnv(c.env) && ValidItem(Text(bytes)) && ValidExpr(e) && ClearExpr(text, c.env, e) && Meaning(c.env, e).Err?
    ensures ValidItems([Text(bytes), Number(e)])
    ensures ExecPrint(text, c, [Text(bytes), Number(e)], s) == Done(c.(out := c.out + [Word(bytes)]), s, Meaning(c.env, e).error)
  {
    var items: seq<PrintItem>, rest: seq<PrintItem>, d := [Text(bytes), Number(e)], [Number(e)], c.(out := c.out + [Word(bytes)]);
    assert ValidItem(items[1]) && items[1..] == rest && ValidItem(rest[0]);
    hide Meaning, ClearExpr, ValidExpr;
    assert ExecPrint(text, d, rest, s) == Done(d, s, Meaning(c.env, e).error);
  }

  /** And IF 1 = 1 THEN PRINT "A" , XY with XY undefined prints A twice. */
  lemma PrintTwice(nos: seq<Int16>, text: set<int>, c: Core, bytes: seq<Byte>, e: Expr)
    requires ValidCore(|nos|, c) && ValidItem(Text(bytes)) && ValidExpr(e)
    requires ClearExpr(text, c.env, e) && Meaning(c.env, e).Err? && Meaning(c.env, e).error != 0
    ensures var s := If(ONE, Equal, ONE, Print([Text(bytes), Number(e)]));
            && ValidStmt(|nos|, s)
            && Exec(nos, text, c, s) == Done(c.(out := c.out + [Word(bytes)] + [Word(bytes)]), s, Meaning(c.env, e).error)
  {
    var p, d := Print([Text(bytes), Number(e)]), c.(out := c.out + [Word(bytes)]);
    TextThenFailure(text, c, bytes, e, p);
    TextThenFailure(text, d, bytes, e, p);
    assert Meaning(c.env, ONE) == Ok(1);
    hide Meaning, ExecPrint, ValidExpr;
  }

  const XY: VarName := [0x58, 0x59]

  /** IF A = 5 THEN A(XY) = 1. */
  const FORGETFUL: Stmt :=
    If(Expr(false, Scalar(Register(0)), End), Equal, Expr(false, Lit(5), End),
       Let(Element(Register(0), Expr(false, Scalar(Named(XY)), End)), ONE))

  /** And with A = 5 and XY undefined, the assignment fails, but has set A to 0: by itself this IF ends with
      the error; under another IF it is run again, its condition is now false, and there is no error. */
  lemma LetTwice(nos: seq<Int16>, text: set<int>, c: Core)
    requires ValidCore(|nos|, c) && NameIndex(c.env.context, XY) == |c.env.context| && c.env.registers[0].value == 5
    ensures ValidStmt(|nos|, FORGETFUL)
    ensures var c1 := c.(env := c.env.(registers := c.env.registers[0 := c.env.registers[0].(value := 0)]));
            && Exec(nos, text, c, FORGETFUL) == Done(c1, FORGETFUL, ERROR_UNDEFINED_VAR)
            && var s := If(ONE, Equal, ONE, FORGETFUL); Exec(nos, text, c, s) == Done(c1, s, 0)
  {
    var leaf, s := FORGETFUL.body, If(ONE, Equal, ONE, FORGETFUL);
    var c1 := c.(env := c.env.(registers := c.env.registers[0 := c.env.registers[0].(value := 0)]));
    assert Meaning(c.env, ONE) == Ok(1);
    ForgetfulLet(text, c);
    ForgetfulLet(text, c1);
    assert c1.env.registers[0 := c1.env.registers[0].(value := 0)] == c1.env.registers;
    ForgetfulCondition(text, c.env);
    ForgetfulCondition(text, c1.env);
    hide Meaning, ClearExpr, ExecLet;
    assert Exec(nos, text, c, leaf) == Done(c1, leaf, ERROR_UNDEFINED_VAR) == Exec(nos, text, c1, leaf);
    assert Exec(nos, text, c1, FORGETFUL) == Done(c1, FORGETFUL, 0);
  }

  lemma ForgetfulLet(text: set<int>, c: Core)
    requires ValidEnv(c.env) && NameIndex(c.env.context, XY) == |c.env.context|
    ensures ValidStmt(1, FORGETFUL)
    ensures ExecLet(text, c, FORGETFUL.body.target, FORGETFUL.body.value, FORGETFUL.body)
            == Done(c.(env := c.env.(registers := c.env.registers[0 := c.env.registers[0].(value := 0)])),
                    FORGETFUL.body, ERROR_UNDEFINED_VAR)
  {
    var index := Expr(false, Scalar(Named(XY)), End);
    UndefinedIndex(text, c.env, index);
    var env := c.env.(registers := c.env.registers[0 := c.env.registers[0].(value := 0)]);
    assert Assign(c.env, Register(0), 0) == Ok(env);
    UndefinedIndex(text, env, index);
    hide Meaning, ClearExpr;
  }

  lemma UndefinedIndex(text: set<int>, env: Env, index: Expr)
    requires ValidEnv(env) && NameIndex(env.context, XY) == |env.context| && index == Expr(false, Scalar(Named(XY)), End)
    ensures Meaning(env, index) == Err(ERROR_UNDEFINED_VAR) && ClearExpr(text, env, index)
  {
  }

  lemma ForgetfulCondition(text: set<int>, env: Env)
    requires ValidEnv(env)
    ensures Meaning(env, FORGETFUL.left) == Ok(env.registers[0].value) && Meaning(env, FORGETFUL.right) == Ok(5)
    ensures ClearExpr(text, env, FORGETFUL.left) && ClearExpr(text, env, FORGETFUL.right)
  {
  }

  // ----- Memory outside the program text -----

  ghost predicate SameOutside(text: set<int>, mem: seq<Byte>, mem': seq<Byte>) {
    |mem| == MEMORY && |mem'| == MEMORY && forall a :: 0 <= a < MEMORY && a !in text ==> mem[a] == mem'[a]
  }

  lemma ElementOutside(text: set<int>, env: Env, mem: seq<Byte>, a: Word, index: Int16)
    requires ValidEnv(env) && SameOutside(text, env.mem, mem) && (a + 1) % MEMORY !in text
    ensures ElementPlace(env.(mem := mem), a, index) == ElementPlace(env, a, index)
  {
    hide SameOutside, At;
    AtOutside(text, env, mem, a + 1);
  }

  /** The program text does not matter to what is clear of it. */
  lemma {:induction false} PlaceOutside(text: set<int>, env: Env, mem: seq<Byte>, x: Operand)
    requires ValidEnv(env) && SameOutside(text, env.mem, mem) && ValidOperand(x) && !x.Lit?
    requires ClearOperand(text, env, x)
    ensures PlaceOf(env.(mem := mem), x) == PlaceOf(env, x)
    ensures PlaceOf(env, x).Ok? ==> Load(env.(mem := mem), PlaceOf(env, x).value) == Load(env, PlaceOf(env, x).value)
    decreases x, 0
  {
    hide Meaning, ClearExpr, Wrap, SameOutside, ElementPlace;
    if x.Element? {
      MeaningOutside(text, env, mem, x.index);
      if Meaning(env, x.index).Ok? && ArrayOf(env, x.v).Ok? {
        ElementOutside(text, env, mem, ArrayOf(env, x.v).value, Meaning(env, x.index).value);
        if PlaceOf(env, x).Ok? {
          LoadOutside(text, env, mem, PlaceOf(env, x).value);
        }
      }
    } else if PlaceOf(env, x).Ok? {
      LoadOutside(text, env, mem, PlaceOf(env, x).value);
    }
  }

  lemma LoadOutside(text: set<int>, env: Env, mem: seq<Byte>, place: Place)
    requires ValidEnv(env) && SameOutside(text, env.mem, mem) && ValidPlace(env, place) && ClearPlace(text, place)
    ensures Load(env.(mem := mem), place) == Load(env, place)
  {
    hide Wrap, ToWord;
    if place.InMemory? {
      hide SameOutside, At;
      AtOutside(text, env, mem, place.address);
      AtOutside(text, env, mem, place.address + 1);
    }
  }

  lemma AtOutside(text: set<int>, env: Env, mem: seq<Byte>, a: nat)
    requires ValidEnv(env) && SameOutside(text, env.mem, mem) && a % MEMORY !in text
    ensures At(env.(mem := mem), a) == At(env, a)
  {
  }

  lemma {:induction false} OperandOutside(text: set<int>, env: Env, mem: seq<Byte>, x: Operand)
    requires ValidEnv(env) && SameOutside(text, env.mem, mem) && ValidOperand(x) && ClearOperand(text, env, x)
    ensures OperandMeaning(env.(mem := mem), x) == OperandMeaning(env, x)
    decreases x, 1
  {
    hide SameOutside, ClearOperand, PlaceOf, Load;
    if !x.Lit? {
      PlaceOutside(text, env, mem, x);
    }
  }

  lemma {:induction false} TailOutside(text: set<int>, env: Env, mem: seq<Byte>, t: Tail)
    requires ValidEnv(env) && SameOutside(text, env.mem, mem) && ValidTail(t) && ClearTail(text, env, t)
    ensures TailMeaning(env.(mem := mem), t) == TailMeaning(env, t)
    decreases t, 1
  {
    hide SameOutside, ClearOperand, OperandMeaning;
    if t.More? {
      OperandOutside(text, env, mem, t.operand);
      TailOutside(text, env, mem, t.tail);
    }
  }

  lemma {:induction false} MeaningOutside(text: set<int>, env: Env, mem: seq<Byte>, e: Expr)
    requires ValidEnv(env) && SameOutside(text, env.mem, mem) && ValidExpr(e) && ClearExpr(text, env, e)
    ensures Meaning(env.(mem := mem), e) == Meaning(env, e)
    decreases e, 1
  {
    hide SameOutside, ClearOperand, ClearTail, OperandMeaning, TailMeaning, Total;
    OperandOutside(text, env, mem, e.first);
    TailOutside(text, env, mem, e.rest);
  }
}
