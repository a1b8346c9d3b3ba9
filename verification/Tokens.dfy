/** Statements as sequences of tokens, and their size in bytes. */
module Tokens {
  import opened Bytes
  import opened Expressions
  import opened Statements

  const FUNC_RND: Byte := 1
  const KW_SIZE := 2
  const FUNC_SIZE := 2
  const SEP_SIZE := 1

  /** A token. Strings, names, remarks and allocations carry their own size. */
  datatype Tok =
    | Numeric(value: Int16)
    | Keyword(code: Byte)
    | Operator(code: Byte)
    | Func(code: Byte)
    | Letter(letter: Byte)
    | Separator
    | Sized(kind: Byte, payload: seq<Byte>)

  predicate ValidTok(t: Tok) {
    t.Sized? ==> t.kind in {TOK_STRING, TOK_VARIABLE, TOK_ALLOC, TOK_REMARK} && |t.payload| < 0x100
  }

  function TokBytes(t: Tok): (r: seq<Byte>)
    requires ValidTok(t)
    ensures 0 < |r| && r[0] != TOK_TERMINATOR
  {
    match t
    case Numeric(value) => [TOK_NUMERIC] + WordBytes(Pattern(value))
    case Keyword(code) => [TOK_KEYWORD, code]
    case Operator(code) => [TOK_OPERATOR, code]
    case Func(code) => [TOK_FUNC, code]
    case Letter(letter) => [TOK_REGISTER, letter]
    case Separator => [TOK_SEPARATOR]
    case Sized(kind, payload) => [kind, |payload|] + payload
  }

  predicate ValidToks(ts: seq<Tok>) {
    forall i :: 0 <= i < |ts| ==> ValidTok(ts[i])
  }

  function AllBytes(ts: seq<Tok>): seq<Byte>
    requires ValidToks(ts)
  {
    if ts == [] then [] else TokBytes(ts[0]) + AllBytes(ts[1..])
  }

  lemma {:induction false} AllBytesJoin(ts: seq<Tok>, us: seq<Tok>)
    requires ValidToks(ts) && ValidToks(us)
    ensures AllBytes(ts + us) == AllBytes(ts) + AllBytes(us)
  {
    hide TokBytes, AllBytes, ValidTok;
    if ts == [] {
      assert [] + us == us;
      AllBytesNone();
    } else {
      AllBytesJoin(ts[1..], us);
      AllBytesMore(ts);
      AllBytesMore(ts + us);
      assert (ts + us)[1..] == ts[1..] + us;
    }
  }

  lemma AllBytesNone()
    ensures AllBytes([]) == []
  {
  }

  lemma AllBytesMore(ts: seq<Tok>)
    requires ValidToks(ts) && ts != []
    ensures ValidTok(ts[0]) && AllBytes(ts) == TokBytes(ts[0]) + AllBytes(ts[1..])
  {
  }

  /** The token after one that carries its size. */
  method VarlenSkip(toks: seq<Byte>, p: nat) returns (q: nat)
    requires p + 1 < |toks|
    ensures q == p + 2 + toks[p + 1]
  {
    q := p + 1;
    var size := toks[q];
    q := q + 1;
    return q + size;
  }

  lemma TokenAt(toks: seq<Byte>, p: nat, ts: seq<Tok>)
    requires ValidToks(ts) && Here(toks, p, AllBytes(ts) + [TOK_TERMINATOR])
    ensures p < |toks|
    ensures ts == [] ==> toks[p] == TOK_TERMINATOR && AllBytes(ts) == []
    ensures ts != [] ==>
              && ValidTok(ts[0]) && Here(toks, p, TokBytes(ts[0])) && Here(toks, p + |TokBytes(ts[0])|, AllBytes(ts[1..]) + [TOK_TERMINATOR])
              && |AllBytes(ts)| == |TokBytes(ts[0])| + |AllBytes(ts[1..])|
              && toks[p] == TokBytes(ts[0])[0]
  {
    hide Here, TokBytes;
    if ts == [] {
      assert AllBytes(ts) + [TOK_TERMINATOR] == [TOK_TERMINATOR];
      HereAt(toks, p, [TOK_TERMINATOR], 0);
    } else {
      var head, rest := TokBytes(ts[0]), AllBytes(ts[1..]);
      assert AllBytes(ts) + [TOK_TERMINATOR] == head + (rest + [TOK_TERMINATOR]);
      HereSplit(toks, p, head, rest + [TOK_TERMINATOR]);
      HereAt(toks, p, head, 0);
    }
  }

  lemma TokenSize(toks: seq<Byte>, p: nat, t: Tok)
    requires ValidTok(t) && Here(toks, p, TokBytes(t))
    ensures |TokBytes(t)| == match t
              case Numeric(_) => NUMERIC_SIZE
              case Separator => SEP_SIZE
              case Sized(_, payload) => 2 + |payload|
              case _ => 2
    ensures t.Sized? ==> p + 1 < |toks| && toks[p + 1] == |t.payload|
    ensures toks[p] == match t
              case Numeric(_) => TOK_NUMERIC
              case Keyword(_) => TOK_KEYWORD
              case Operator(_) => TOK_OPERATOR
              case Func(_) => TOK_FUNC
              case Letter(_) => TOK_REGISTER
              case Separator => TOK_SEPARATOR
              case Sized(kind, _) => kind
  {
    HereAt(toks, p, TokBytes(t), 0);
    if t.Sized? {
      HereAt(toks, p, TokBytes(t), 1);
    }
  }

  /** The size of a statement with its terminator, whatever its tokens carry, modulo 256. */
  method StatementSize(toks: seq<Byte>, start: nat, ghost ts: seq<Tok>) returns (size: Byte)
    requires ValidToks(ts) && Here(toks, start, AllBytes(ts) + [TOK_TERMINATOR])
    ensures size == (|AllBytes(ts)| + 1) % 0x100
  {
    hide Here, TokBytes, AllBytes;
    var p := start;
    ghost var rest := ts;
    TokenAt(toks, p, rest);
    while toks[p] != TOK_TERMINATOR
      invariant start <= p
      invariant ValidToks(rest) && Here(toks, p, AllBytes(rest) + [TOK_TERMINATOR]) && p < |toks|
      invariant p + |AllBytes(rest)| == start + |AllBytes(ts)|
      decreases |rest|
    {
      TokenAt(toks, p, rest);
      TokenSize(toks, p, rest[0]);
      var tok := toks[p];
      if tok == TOK_NUMERIC {
        p := p + NUMERIC_SIZE;
      } else if tok == TOK_KEYWORD {
        p := p + KW_SIZE;
      } else if tok == TOK_OPERATOR {
        p := p + OP_SIZE;
      } else if tok == TOK_FUNC {
        p := p + FUNC_SIZE;
      } else if tok == TOK_REGISTER {
        p := p + REGISTER_SIZE;
      } else if tok == TOK_SEPARATOR {
        p := p + 1;
      } else if tok == TOK_STRING || tok == TOK_VARIABLE || tok == TOK_ALLOC || tok == TOK_REMARK {
        p := VarlenSkip(toks, p);
      }
      rest := rest[1..];
      TokenAt(toks, p, rest);
    }
    TokenAt(toks, p, rest);
    p := p + 1;
    return (p - start) % 0x100;
  }
}
