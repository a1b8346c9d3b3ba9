/** DIM: the elements of a declared array. */
module Arrays {
  import opened Bytes
  import opened Expressions
  import opened Statements

  /** Two places share no cell and no byte. */
  predicate Separate(p: Place, q: Place) {
    match (p, q)
    case (InRegister(i), InRegister(j)) => i != j
    case (InContext(i), InContext(j)) => i != j
    case (InMemory(a), InMemory(b)) => a != b && (a + 1) % MEMORY != b && (b + 1) % MEMORY != a
    case _ => true
  }

  /** Storing at a place changes no separate one. */
  lemma StoreFrame(env: Env, p: Place, q: Place, x: Int16)
    requires ValidEnv(env) && ValidPlace(env, p) && ValidPlace(env, q) && Separate(p, q)
    ensures ValidPlace(Store(env, p, x), q) && Load(Store(env, p, x), q) == Load(env, q)
  {
    hide Wrap, ToWord, Pattern, WordBytes;
  }

  /** The variable does not refer to anything yet, or is a register. */
  predicate Declarable(c: Core, v: Var)
    requires ValidEnv(c.env)
  {
    v.Register? || NameIndex(c.env.context, v.name) == |c.env.context|
  }

  /** A DIM that is defined, of at most 127 elements. */
  predicate Declares(c: Core, v: Var, n: Int16, s: Stmt)
    requires ValidEnv(c.env) && ValidVar(v)
  {
    0 <= n <= 127 && Declarable(c, v) && ExecDim(c, v, n, s).Done?
  }

  /** Other sizes are out of range, and declare nothing. */
  lemma DimLimit(c: Core, v: Var, n: Int16, s: Stmt)
    requires ValidEnv(c.env) && ValidVar(v) && ExecDim(c, v, n, s).Done?
    ensures ExecDim(c, v, n, s).error == ERROR_RANGE <==> !(0 <= n <= 127)
    ensures !(0 <= n <= 127) ==> ExecDim(c, v, n, s).core == c
  {
  }

  /** The array lies at the end of memory as it was. */
  lemma DeclaredAt(c: Core, v: Var, n: Int16, s: Stmt)
    requires ValidEnv(c.env) && ValidVar(v) && Declares(c, v, n, s)
    ensures var r := ExecDim(c, v, n, s);
            && r.error == 0 && ValidEnv(r.core.env) && c.end + 2 + 2 * n == r.core.end <= MEMORY
            && ArrayOf(r.core.env, v) == Ok(c.end)
            && r.core.env.mem[c.end + 1] == 2 * n
            && (forall a :: c.end + 2 <= a < r.core.end ==> r.core.env.mem[a] == 0)
            && (forall a :: 0 <= a < MEMORY && !(c.end <= a < r.core.end) ==> r.core.env.mem[a] == c.env.mem[a])
  {
    var r := ExecDim(c, v, n, s);
    assert Pattern(n) == n;
    assert Pattern(Wrap(c.end)) == c.end;
    if v.Named? {
      var k, context := |c.env.context|, r.core.env.context;
      assert context == c.env.context + [(v.name, Wrap(c.end))];
      IndexUnique(context, v.name, k);
    }
  }

  /** Exactly the elements from 1 to n can be used; they are 0, and lie in the memory just taken. */
  lemma ElementsOfArray(c: Core, v: Var, n: Int16, s: Stmt, index: Expr, i: Int16)
    requires ValidEnv(c.env) && ValidVar(v) && Declares(c, v, n, s) && ValidExpr(index)
    requires ValidEnv(ExecDim(c, v, n, s).core.env) && Meaning(ExecDim(c, v, n, s).core.env, index) == Ok(i)
    ensures var d := ExecDim(c, v, n, s).core;
            var place := PlaceOf(d.env, Element(v, index));
            && (1 <= i <= n ==>
                  && place == Ok(InMemory(c.end + 2 * i)) && Load(d.env, place.value) == 0
                  && c.end + 2 <= place.value.address && place.value.address + 1 < d.end)
            && (!(1 <= i <= n) ==> place == Err(ERROR_RANGE))
  {
    DeclaredAt(c, v, n, s);
    hide Meaning, ExecDim, ArrayOf, ToWord, ElementPlace, Load, Declares;
    var env := ExecDim(c, v, n, s).core.env;
    ElementAt(env, c.end, n, i);
    if 1 <= i <= n {
      ZeroHere(env, c.end + 2 * i);
    }
  }

  lemma ElementAt(env: Env, a: Word, n: Int16, i: Int16)
    requires ValidEnv(env) && 0 <= n && a + 2 + 2 * n <= MEMORY && env.mem[a + 1] == 2 * n
    ensures ElementPlace(env, a, i) == if 1 <= i <= n then Ok(InMemory(a + 2 * i)) else Err(ERROR_RANGE)
  {
    assert At(env, a + 1) == 2 * n;
  }

  lemma ZeroHere(env: Env, a: Word)
    requires ValidEnv(env) && a + 1 < MEMORY && env.mem[a] == 0 && env.mem[a + 1] == 0
    ensures Load(env, InMemory(a)) == 0
  {
    hide ToWord;
    ZeroWord();
  }

  lemma ZeroWord()
    ensures ToWord(0, 0) == 0
  {
    TwoBytes([0, 0]);
  }

  /** Different elements are separate, so an array holds what was stored last at each index. */
  lemma ElementsSeparate(end: nat, n: Int16, i: Int16, j: Int16)
    requires end + 2 + 2 * n <= MEMORY && 1 <= i <= n && 1 <= j <= n && i != j
    ensures Separate(InMemory(end + 2 * i), InMemory(end + 2 * j))
  {
  }

  /** The other variables keep their values, and nothing else changes. */
  lemma DimOthers(c: Core, v: Var, n: Int16, s: Stmt, w: Var)
    requires ValidEnv(c.env) && ValidVar(v) && ValidVar(w) && Declares(c, v, n, s) && w != v && ScalarValue(c.env, w).Ok?
    ensures var r := ExecDim(c, v, n, s);
            && ValidEnv(r.core.env) && ScalarValue(r.core.env, w) == ScalarValue(c.env, w)
            && r.core == c.(env := r.core.env, end := r.core.end)
  {
    var env := ExecDim(c, v, n, s).core.env;
    if w.Named? {
      IndexUnique(env.context, w.name, NameIndex(c.env.context, w.name));
    }
  }

  /** An element has the error of its index, or is in no array if its variable refers to none. */
  lemma NoElement(env: Env, v: Var, index: Expr)
    requires ValidEnv(env) && ValidVar(v) && ValidExpr(index)
    ensures Meaning(env, index).Err? ==> PlaceOf(env, Element(v, index)) == Err(Meaning(env, index).error)
    ensures Meaning(env, index).Ok? && v.Register? && !env.registers[v.letter].defined ==>
              PlaceOf(env, Element(v, index)) == Err(11)
    ensures Meaning(env, index).Ok? && v.Named? && NameIndex(env.context, v.name) == |env.context| ==>
              PlaceOf(env, Element(v, index)) == Err(11)
  {
    hide Meaning;
  }
}
